/** The guest-memory side of a virtual processor: the host's tables for L1, the shadow tables for L2,
    and every event that changes either, in any order. */
module VcpuMemory {
  import opened Wrappers
  import opened BootMemory
  import opened PageTable
  import opened Ept
  import opened NestedEpt

  /** A snapshot of everything the translations depend on. `root` and `shadow` are the frames of the
      two top tables, `shadow` being 0 until L2 first runs; `top` is L1's frame of its own top table;
      `used` are the frames the allocator has handed out. */
  datatype Paging = Paging(
    words: Words, root: nat, shadow: nat, top: nat, hostTables: Owner, shadowTables: Owner, used: iset<nat>)
  {
    /** A frame that holds guest memory: never a table of either tree. */
    ghost predicate GuestFrame(f: nat) {
      f in used && f !in hostTables && f !in shadowTables
    }

    ghost predicate Consistent() {
      && Tree(words, root, hostTables, PERMISSIONS)
      && (shadow != 0 ==> Tree(words, shadow, shadowTables, PERMISSIONS))
      && (shadow == 0 ==> shadowTables == map[])
      && (forall f :: f in hostTables ==> f in used && f !in shadowTables)
      && (forall f :: f in shadowTables ==> f in used)
      && (forall q: nat :: EptWalk(words, root, q).Some? ==> GuestFrame(EptWalk(words, root, q).value))
      && (shadow != 0 ==> forall q: nat :: EptWalk(words, shadow, q).Some? ==>
            GuestFrame(EptWalk(words, shadow, q).value))
    }

    /** Every page the shadow tables translate goes to the host's walk of the L1 walk of that page. */
    ghost predicate Sound() {
      shadow != 0 ==> forall q: nat :: EptWalk(words, shadow, q).Some? ==>
        Composite(words, root, top, q) == EptWalk(words, shadow, q)
    }

    /** Soundness as the processor sees it: a shadowed page whose walk through L1's tables the code does not
        misread goes to the host's walk of the architecture's walk of that page. */
    ghost predicate Architectural() {
      shadow != 0 ==> forall q: nat ::
        EptWalk(words, shadow, q).Some? && !Misread(L1Entries(words, root), top, q, PERMISSIONS) ==>
        Walk(words, shadow, q, PERMISSIONS) == TrueComposite(words, root, top, q)
    }

    /** The host's translations are those of before, and perhaps more. */
    ghost predicate HostKept(s: Paging) {
      forall q: nat :: EptWalk(s.words, s.root, q).Some? ==> EptWalk(words, root, q) == EptWalk(s.words, s.root, q)
    }
  }

  /** What soundness in terms of the code's own walk means for the processor: a shadowed page is right exactly
      if the host maps the L1 page the code found like the one L1's tables mean, which off the misread 2 MB
      pages is the same page. */
  lemma SoundPageIsRight(s: Paging, q: nat)
    requires s.Consistent() && s.Sound() && s.shadow != 0 && EptWalk(s.words, s.shadow, q).Some?
    ensures var entry := L1Entries(s.words, s.root);
      && NestedWalk(entry, s.top, q).Some? && ArchitecturalWalk(entry, s.top, q, PERMISSIONS).Some?
      && (Walk(s.words, s.shadow, q, PERMISSIONS) == TrueComposite(s.words, s.root, s.top, q) <==>
        EptWalk(s.words, s.root, NestedWalk(entry, s.top, q).value)
          == EptWalk(s.words, s.root, ArchitecturalWalk(entry, s.top, q, PERMISSIONS).value))
      && (!Misread(entry, s.top, q, PERMISSIONS) ==>
        Walk(s.words, s.shadow, q, PERMISSIONS) == TrueComposite(s.words, s.root, s.top, q))
  {
    WalkReadsLeaf(s.words, s.shadow, s.shadowTables, q);
    CompositeIs(s.words, s.root, s.top, q);
    hide Walk;
    hide EptWalk;
    hide Tree;
    hide Leaf;
    hide GuestWalk;
    hide ArchitecturalWalk;
    hide Misread;
    hide Composite;
    hide TrueComposite;
    CompositeAgreesWithArchitecture(s.words, s.root, s.hostTables, s.top, q);
  }

  lemma SoundIsArchitectural(s: Paging)
    requires s.Consistent() && s.Sound()
    ensures s.Architectural()
  {
    hide Walk;
    hide EptWalk;
    hide Misread;
    hide TrueComposite;
    forall q: nat |
      && s.shadow != 0 && EptWalk(s.words, s.shadow, q).Some?
      && !Misread(L1Entries(s.words, s.root), s.top, q, PERMISSIONS)
      ensures Walk(s.words, s.shadow, q, PERMISSIONS) == TrueComposite(s.words, s.root, s.top, q)
    {
      SoundPageIsRight(s, q);
    }
  }

  /** Writes outside a tree's tables leave its translations alone. */
  lemma TranslationsUnchanged(w: Words, w': Words, root: nat, owner: Owner)
    requires Tree(w, root, owner, PERMISSIONS)
    requires forall t, i :: t in owner ==> Read(w', t, i) == Read(w, t, i)
    ensures Tree(w', root, owner, PERMISSIONS)
    ensures forall q: nat :: EptWalk(w', root, q) == EptWalk(w, root, q)
  {
    TreeFrame(w, w', root, owner, PERMISSIONS);
    forall q: nat ensures EptWalk(w', root, q) == EptWalk(w, root, q) {
      WalkReadsLeaf(w, root, owner, q);
      WalkReadsLeaf(w', root, owner, q);
    }
  }

  /** Soundness survives a step that only adds host translations, leaves guest memory alone, and gives
      the shadow no translation but correct ones. */
  lemma SoundnessSurvives(s: Paging, s': Paging)
    requires s.Sound() && s.shadow != 0 && s'.root == s.root && s'.top == s.top && s'.HostKept(s)
    requires forall g: nat, i :: EptWalk(s.words, s.root, g).Some? ==>
      Read(s'.words, EptWalk(s.words, s.root, g).value, i) == Read(s.words, EptWalk(s.words, s.root, g).value, i)
    requires forall q: nat :: EptWalk(s'.words, s'.shadow, q).Some? ==>
      (s'.shadow == s.shadow && EptWalk(s'.words, s'.shadow, q) == EptWalk(s.words, s.shadow, q)) ||
      EptWalk(s'.words, s'.shadow, q) == Composite(s.words, s.root, s.top, q)
    ensures s'.Sound()
  {
    forall q: nat | EptWalk(s'.words, s'.shadow, q).Some?
      ensures Composite(s'.words, s'.root, s'.top, q) == EptWalk(s'.words, s'.shadow, q)
    {
      assert Composite(s.words, s.root, s.top, q) == EptWalk(s'.words, s'.shadow, q);
      CompositeSurvives(s.words, s'.words, s.root, s.top, q);
    }
  }

  /** `s'` is `s` after fresh tables, three at most, were added to the tree with tables `was`, now `now`. The
      allocator has handed out these and `pages`, no more. */
  ghost predicate TablesAdded(s: Paging, s': Paging, was: Owner, now: Owner, pages: set<nat>) {
    && was.Keys <= now.Keys && |now.Keys| <= |was.Keys| + 3
    && (forall f :: f in s'.used <==> f in s.used || f in now || f in pages)
    && (forall f :: f in now && f !in was ==> f !in s.used)
    && (forall t, i :: t !in now ==> Read(s'.words, t, i) == Read(s.words, t, i))
  }

  /** At most `n` frames were handed out. */
  ghost predicate FewMore(was: iset<nat>, now: iset<nat>, n: nat) {
    exists t: set<nat> :: |t| <= n && OnlyThese(was, now, t)
  }

  ghost predicate OnlyThese(was: iset<nat>, now: iset<nat>, t: set<nat>) {
    forall f :: f in now ==> f in was || f in t
  }

  lemma AddedAreFew(s: Paging, s': Paging, was: Owner, now: Owner, pages: set<nat>)
    requires TablesAdded(s, s', was, now, pages) && forall f :: f in was ==> f in s.used
    ensures FewMore(s.used, s'.used, 3 + |pages|)
  {
    hide Read;
    var t := (now.Keys - was.Keys) + pages;
    FewRemain(was.Keys, now.Keys, pages, 3);
    assert OnlyThese(s.used, s'.used, t);
  }

  lemma FewRemain(was: set<nat>, now: set<nat>, pages: set<nat>, n: nat)
    requires was <= now && |now| <= |was| + n
    ensures |now - was + pages| <= n + |pages|
  {
    assert |now - was| == |now| - |was|;
  }

  lemma FewInTwo(a: iset<nat>, b: iset<nat>, c: iset<nat>, m: nat, n: nat)
    requires FewMore(a, b, m) && FewMore(b, c, n)
    ensures FewMore(a, c, m + n)
  {
    var s: set<nat> :| |s| <= m && OnlyThese(a, b, s);
    var t: set<nat> :| |t| <= n && OnlyThese(b, c, t);
    assert |s + t| <= m + n && OnlyThese(a, c, s + t);
  }

  lemma MoreIsFewer(a: iset<nat>, b: iset<nat>, m: nat, n: nat)
    requires FewMore(a, b, m) && m <= n
    ensures FewMore(a, b, n)
  {
  }

  lemma NoneIsFew(a: iset<nat>, n: nat)
    ensures FewMore(a, a, n)
  {
    var none: set<nat> := {};
    assert |none| <= n && OnlyThese(a, a, none);
  }

  /** `s'` is `s` after frame `frame` was mapped in the host's tables for a page they did not translate, or
      not. */
  ghost predicate HostStep(s: Paging, s': Paging, page: nat, frame: nat, mapped: bool) {
    && s.Consistent() && s' == s.(words := s'.words, hostTables := s'.hostTables, used := s'.used)
    && TablesAdded(s, s', s.hostTables, s'.hostTables, {frame})
    && Tree(s'.words, s.root, s'.hostTables, PERMISSIONS)
    && EptWalk(s.words, s.root, page).None? && (mapped ==> s'.GuestFrame(frame) && frame !in s.used)
    && forall q: nat :: EptWalk(s'.words, s'.root, q) ==
         if mapped && SamePage(page, q) then Some(frame) else EptWalk(s.words, s.root, q)
  }

  /** Mapping a fresh frame in the host's tables, where nothing was mapped, keeps everything. */
  lemma HostMapped(s: Paging, s': Paging, page: nat, frame: nat, mapped: bool)
    requires HostStep(s, s', page, frame, mapped)
    ensures s'.Consistent() && s'.HostKept(s) && (s.Sound() ==> s'.Sound())
  {
    hide EptWalk;
    hide Tree;
    hide SamePage;
    forall q: nat | SamePage(page, q) ensures EptWalk(s.words, s.root, q).None? {
      SharedEptWalk(s.words, s.root, s.hostTables, page, q);
    }
    if s.shadow != 0 {
      TranslationsUnchanged(s.words, s'.words, s.shadow, s.shadowTables);
      if s.Sound() {
        SoundnessSurvives(s, s');
      }
    }
  }

  /** `s'` is `s` after the composite translation of `page` was mapped in the shadow, or not. */
  ghost predicate ShadowStep(s: Paging, s': Paging, page: nat, mapped: bool) {
    && s.Consistent() && s.shadow != 0
    && s' == s.(words := s'.words, shadowTables := s'.shadowTables, used := s'.used)
    && TablesAdded(s, s', s.shadowTables, s'.shadowTables, {})
    && Tree(s'.words, s.shadow, s'.shadowTables, PERMISSIONS)
    && Composite(s.words, s.root, s.top, page).Some?
    && forall q: nat :: EptWalk(s'.words, s'.shadow, q) ==
         if mapped && SamePage(page, q) then Composite(s.words, s.root, s.top, page) else EptWalk(s.words, s.shadow, q)
  }

  /** Mapping a composite translation in the shadow keeps everything. */
  lemma ShadowMapped(s: Paging, s': Paging, page: nat, mapped: bool)
    requires ShadowStep(s, s', page, mapped)
    ensures s'.Consistent() && s'.HostKept(s) && (s.Sound() ==> s'.Sound())
  {
    hide EptWalk;
    hide Composite;
    hide Tree;
    hide SamePage;
    TranslationsUnchanged(s.words, s'.words, s.root, s.hostTables);
    if s.Sound() {
      ShadowMappedSound(s, s', page, mapped);
    }
    CompositeIsGuestFrame(s, page);
  }

  lemma CompositeIsGuestFrame(s: Paging, page: nat)
    requires s.Consistent() && Composite(s.words, s.root, s.top, page).Some?
    ensures s.GuestFrame(Composite(s.words, s.root, s.top, page).value)
  {
    hide EptWalk;
    hide NestedWalk;
  }

  lemma ShadowMappedSound(s: Paging, s': Paging, page: nat, mapped: bool)
    requires ShadowStep(s, s', page, mapped) && s.Sound() && s'.HostKept(s)
    ensures s'.Sound()
  {
    hide EptWalk;
    hide Composite;
    hide SamePage;
    hide Tree;
    forall q: nat | SamePage(page, q)
      ensures Composite(s.words, s.root, s.top, q) == Composite(s.words, s.root, s.top, page)
    {
      CompositeIsPerPage(s.words, s.root, s.top, page, q);
    }
    SoundnessSurvives(s, s');
  }

  /** `s'` is `s` with an empty shadow in a fresh frame. */
  ghost predicate ShadowMade(s: Paging, s': Paging) {
    && s.Consistent() && s.shadow == 0 && s'.shadow != 0 && s'.shadow !in s.used
    && s' == s.(words := s'.words, shadow := s'.shadow, shadowTables := map[s'.shadow := []], used := s'.used)
    && TablesAdded(s, s', s.shadowTables, s'.shadowTables, {})
    && forall i :: Read(s'.words, s'.shadow, i) == EMPTY
  }

  /** A new, empty shadow is sound. */
  lemma ShadowCreated(s: Paging, s': Paging)
    requires ShadowMade(s, s')
    ensures s'.Consistent() && s'.HostKept(s) && s'.Sound()
    ensures forall q: nat :: EptWalk(s'.words, s'.shadow, q) == None
  {
    TranslationsUnchanged(s.words, s'.words, s.root, s.hostTables);
    EmptyTree(s'.words, s'.shadow, PERMISSIONS);
    forall q: nat ensures EptWalk(s'.words, s'.shadow, q) == None {
      WalkReadsLeaf(s'.words, s'.shadow, s'.shadowTables, q);
    }
  }

  /** Some page the shadow translates is walked through entry `index` of the host frame `frame`. */
  ghost predicate ReadByShadow(s: Paging, frame: nat, index: nat) {
    && s.shadow != 0
    && exists q: nat :: EptWalk(s.words, s.shadow, q).Some? && WalkedThrough(s, q, frame, index)
  }

  /** The walk of page `q` through L1's tables reads that entry. */
  ghost predicate WalkedThrough(s: Paging, q: nat, frame: nat, index: nat) {
    exists e :: e in NestedReads(L1Entries(s.words, s.root), s.top, q) && LiesAt(s.words, s.root, e, frame, index)
  }

  /** A store of `value` to entry `index` of host frame `frame` redirects no page the shadow translates. */
  ghost predicate Spared(s: Paging, frame: nat, index: nat, value: Word) {
    s.shadow != 0 ==> forall q: nat :: EptWalk(s.words, s.shadow, q).Some? ==>
      !Redirects(s.words, s.root, s.top, frame, index, value, q)
  }

  /** A guest's store into its own memory changes no translation, and makes a sound shadow stale exactly if it
      redirects a page the shadow translates. */
  lemma GuestStored(s: Paging, s': Paging, frame: nat, index: nat, value: Word)
    requires s.Consistent() && s.GuestFrame(frame)
    requires s' == s.(words := s.words[Slot(frame, index) := value])
    ensures s'.Consistent()
    ensures forall q: nat :: EptWalk(s'.words, s'.root, q) == EptWalk(s.words, s.root, q)
    ensures s.shadow != 0 ==> forall q: nat :: EptWalk(s'.words, s'.shadow, q) == EptWalk(s.words, s.shadow, q)
    ensures s.Sound() ==> (s'.Sound() <==> Spared(s, frame, index, value))
  {
    hide EptWalk;
    hide Composite;
    hide Tree;
    TranslationsUnchanged(s.words, s'.words, s.root, s.hostTables);
    if s.shadow != 0 {
      TranslationsUnchanged(s.words, s'.words, s.shadow, s.shadowTables);
      hide Redirects;
      forall q: nat
        ensures Composite(s'.words, s.root, s.top, q) == Composite(s.words, s.root, s.top, q) <==>
          !Redirects(s.words, s.root, s.top, frame, index, value, q)
      {
        RedirectsExactly(s.words, s'.words, s.root, s.top, frame, index, value, q);
      }
    }
  }

  /** Stores that spare the shadow: those that hit no entry a shadowed page is walked through, and those that
      leave the frame, the presence and the large-page bit of the entry as they were. */
  lemma SparedStores(s: Paging, frame: nat, index: nat, value: Word)
    requires s.Consistent() && s.Sound()
    requires ReadByShadow(s, frame, index) ==> Alike(Read(s.words, frame, index), value)
    ensures Spared(s, frame, index, value)
  {
    hide EptWalk;
    hide Composite;
    hide Redirects;
    hide NestedReads;
    forall q: nat | s.shadow != 0 && EptWalk(s.words, s.shadow, q).Some?
      ensures !Redirects(s.words, s.root, s.top, frame, index, value, q)
    {
      assert ReadByShadow(s, frame, index) || !WalkedThrough(s, q, frame, index);
      SparedPage(s.words, s.root, s.top, frame, index, value, q);
    }
  }

  /** A store that takes the presence from an entry a shadowed page is walked through leaves the shadow stale. */
  lemma ClearedEntryStales(s: Paging, frame: nat, index: nat, value: Word)
    requires s.Consistent() && s.Sound() && ReadByShadow(s, frame, index) && !Present(value, PERMISSIONS)
    ensures !Spared(s, frame, index, value)
  {
    hide EptWalk;
    hide Composite;
    hide Redirects;
    hide NestedReads;
    var q: nat :| EptWalk(s.words, s.shadow, q).Some? && WalkedThrough(s, q, frame, index);
    var e :| e in NestedReads(L1Entries(s.words, s.root), s.top, q) && LiesAt(s.words, s.root, e, frame, index);
    AbsentEntryRedirects(s.words, s.root, s.top, frame, index, value, q, e);
  }

  /** Page `q` is walked through entry `index` of host frame `frame` as its lowest-level entry, and through
      other words above it. */
  ghost predicate LowestOf(s: Paging, q: nat, frame: nat, index: nat) {
    var entry := L1Entries(s.words, s.root);
    var last := LowestRead(entry, s.top, q);
    && last.Some? && LiesAt(s.words, s.root, last.value, frame, index)
    && forall e :: e in UpperReads(entry, s.top, q) ==> !LiesAt(s.words, s.root, e, frame, index)
  }

  /** What a store to the lowest-level entry of a shadowed page does to it: the shadow is right afterwards
      exactly if the new entry is present and the host maps the L1 page it names like the one before. */
  lemma LowestStoreIsExact(s: Paging, s': Paging, q: nat, frame: nat, index: nat, value: Word)
    requires s.Consistent() && s.Sound() && s.GuestFrame(frame) && s.shadow != 0
    requires s' == s.(words := s.words[Slot(frame, index) := value])
    requires EptWalk(s.words, s.shadow, q).Some? && LowestOf(s, q, frame, index)
    ensures s'.Consistent()
    ensures Composite(s'.words, s'.root, s'.top, q) == EptWalk(s'.words, s'.shadow, q) <==>
      Present(value, PERMISSIONS)
      && EptWalk(s.words, s.root, value.frame) == EptWalk(s.words, s.root, Read(s.words, frame, index).frame)
  {
    hide EptWalk;
    hide Composite;
    hide Redirects;
    hide Tree;
    hide LowestRead;
    hide UpperReads;
    GuestStored(s, s', frame, index, value);
    RedirectsExactly(s.words, s'.words, s.root, s.top, frame, index, value, q);
    LowestEntryRedirects(s.words, s.root, s.top, frame, index, value, q);
  }

  /** The same for the whole shadow, for an entry that is the lowest-level one of every shadowed page that is
      walked through it. */
  lemma LowestStoreStalesExactly(s: Paging, s': Paging, frame: nat, index: nat, value: Word)
    requires s.Consistent() && s.Sound() && s.GuestFrame(frame)
    requires s' == s.(words := s.words[Slot(frame, index) := value])
    requires s.shadow != 0 ==> forall q: nat ::
      EptWalk(s.words, s.shadow, q).Some? && WalkedThrough(s, q, frame, index) ==> LowestOf(s, q, frame, index)
    ensures s'.Sound() <==> (ReadByShadow(s, frame, index) ==>
      Present(value, PERMISSIONS)
      && EptWalk(s.words, s.root, value.frame) == EptWalk(s.words, s.root, Read(s.words, frame, index).frame))
  {
    hide EptWalk;
    hide Composite;
    hide Redirects;
    hide Tree;
    hide NestedReads;
    hide LowestOf;
    GuestStored(s, s', frame, index, value);
    if !ReadByShadow(s, frame, index) {
      SparedStores(s, frame, index, value);
    } else {
      var page: nat :| EptWalk(s.words, s.shadow, page).Some? && WalkedThrough(s, page, frame, index);
      LowestStoreIsExact(s, s', page, frame, index, value);
      forall q: nat |
        && EptWalk(s.words, s.shadow, q).Some? && Present(value, PERMISSIONS)
        && EptWalk(s.words, s.root, value.frame) == EptWalk(s.words, s.root, Read(s.words, frame, index).frame)
        ensures !Redirects(s.words, s.root, s.top, frame, index, value, q)
      {
        if WalkedThrough(s, q, frame, index) {
          hide WalkedThrough;
          LowestPageSpared(s, frame, index, value, q);
        } else {
          SparedPage(s.words, s.root, s.top, frame, index, value, q);
        }
      }
    }
  }

  lemma LowestPageSpared(s: Paging, frame: nat, index: nat, value: Word, q: nat)
    requires Composite(s.words, s.root, s.top, q).Some? && LowestOf(s, q, frame, index)
    requires Present(value, PERMISSIONS)
    requires EptWalk(s.words, s.root, value.frame) == EptWalk(s.words, s.root, Read(s.words, frame, index).frame)
    ensures !Redirects(s.words, s.root, s.top, frame, index, value, q)
  {
    hide EptWalk;
    hide Composite;
    hide Redirects;
    hide LowestRead;
    hide UpperReads;
    LowestEntryRedirects(s.words, s.root, s.top, frame, index, value, q);
  }

  lemma CompositeIs(w: Words, root: nat, top: nat, page: nat)
    ensures var l1page := NestedWalk(L1Entries(w, root), top, page);
      Composite(w, root, top, page) == if l1page.None? then None else EptWalk(w, root, l1page.value)
  {
  }

  /** What can happen to the translations while the guests run. */
  datatype Event =
    | HostFault(gpa: nat)                   // an EPT violation while L1 runs
    | NestedFault(l2gpa: nat)               // an EPT violation while L2 runs
    | StoreL1(gpa: nat, value: Word)        // L1 stores a word
    | StoreL2(l2gpa: nat, value: Word)      // L2 stores a word
    | NewTop(top: nat)                      // L1 gives its vmcs12 another EPT pointer, or loads another vmcs12
    | EnterL2(controls: seq<nat>)           // L1 launches or resumes L2; its vmcs12 names these L1 addresses
    | Invept                                // L1 executes INVEPT

  function IndexOf(address: nat): nat { address % 0x1000 / 8 }

  /** The frame a store goes to, if its page is translated. */
  function StoreFrame(s: Paging, e: Event): Option<nat>
    requires e.StoreL1? || e.StoreL2?
  {
    match e
    case StoreL1(gpa, _) => EptWalk(s.words, s.root, gpa / 0x1000)
    case StoreL2(l2gpa, _) => if s.shadow == 0 then None else EptWalk(s.words, s.shadow, l2gpa / 0x1000)
  }

  function StoreAddress(e: Event): nat
    requires e.StoreL1? || e.StoreL2?
  {
    if e.StoreL1? then e.gpa else e.l2gpa
  }

  /** The host translates all of these L1 addresses. */
  predicate Reached(w: Words, root: nat, controls: seq<nat>) {
    forall i :: 0 <= i < |controls| ==> EptWalk(w, root, controls[i] / 0x1000).Some?
  }

  /** What an event makes of a state. A fault is raised for a page without translation only, and one of L2
      only once it has its shadow tables. Entering L2 makes these if all controls are reached. INVEPT does
      nothing. */
  ghost predicate Step(s: Paging, e: Event, s': Paging) {
    match e
    case HostFault(gpa) =>
      if EptWalk(s.words, s.root, gpa / 0x1000).Some? then s' == s
      else exists frame :: HostStep(s, s', gpa / 0x1000, frame, true)
    case NestedFault(l2gpa) =>
      s.shadow != 0 &&
      if EptWalk(s.words, s.shadow, l2gpa / 0x1000).Some? then s' == s
      else ShadowStep(s, s', l2gpa / 0x1000, true)
    case NewTop(top) => s' == s.(top := top)
    case EnterL2(controls) => if s.shadow == 0 && Reached(s.words, s.root, controls) then ShadowMade(s, s') else s' == s
    case Invept => s' == s
    case _ =>
      var frame := StoreFrame(s, e);
      s' == if frame.None? then s else s.(words := s.words[Slot(frame.value, IndexOf(StoreAddress(e))) := e.value])
  }

  /** The event is one that INVEPT is for: a store that redirects a page the shadow translates, or another top
      table that does. */
  ghost predicate Disturbs(s: Paging, e: Event) {
    match e
    case NewTop(top) =>
      s.shadow != 0 && exists q: nat ::
        && EptWalk(s.words, s.shadow, q).Some?
        && Composite(s.words, s.root, top, q) != Composite(s.words, s.root, s.top, q)
    case StoreL1(_, _) => Redirected(s, e)
    case StoreL2(_, _) => Redirected(s, e)
    case _ => false
  }

  ghost predicate Redirected(s: Paging, e: Event)
    requires e.StoreL1? || e.StoreL2?
  {
    var frame := StoreFrame(s, e);
    frame.Some? && !Spared(s, frame.value, IndexOf(StoreAddress(e)), e.value)
  }

  /** A run of the vcpu from a sound state, as the one it starts in. */
  ghost predicate IsRun(states: seq<Paging>, es: seq<Event>) {
    && |states| == |es| + 1 && states[0].Consistent() && states[0].Sound()
    && forall i :: 0 <= i < |es| ==> Step(states[i], es[i], states[i + 1])
  }

  /** L1 or the host has no translation for an L2 page. */
  predicate Untranslated(s: Paging, l2gpa: nat) {
    Composite(s.words, s.root, s.top, l2gpa / 0x1000).None?
  }

  /** The event cannot be answered: a fault of L2 without shadow tables, or on a page without translation. */
  ghost predicate Fails(s: Paging, e: Event) {
    e.NestedFault? && (s.shadow == 0 || Untranslated(s, e.l2gpa))
  }

  /** What every event keeps, and which events make a sound shadow stale. */
  lemma StepKeeps(s: Paging, e: Event, s': Paging)
    requires s.Consistent() && Step(s, e, s')
    ensures s'.Consistent() && s'.HostKept(s) && s'.root == s.root && (s.shadow != 0 ==> s'.shadow == s.shadow)
    ensures s.Sound() ==> (s'.Sound() <==> !Disturbs(s, e))
  {
    hide EptWalk;
    hide Composite;
    hide Tree;
    hide Spared;
    hide TablesAdded;
    match e {
      case HostFault(gpa) =>
        if EptWalk(s.words, s.root, gpa / 0x1000).None? {
          var frame :| HostStep(s, s', gpa / 0x1000, frame, true);
          HostMapped(s, s', gpa / 0x1000, frame, true);
        }
      case NestedFault(l2gpa) =>
        if EptWalk(s.words, s.shadow, l2gpa / 0x1000).None? {
          ShadowMapped(s, s', l2gpa / 0x1000, true);
        }
      case NewTop(_) =>
      case EnterL2(controls) =>
        if s.shadow == 0 && Reached(s.words, s.root, controls) {
          ShadowCreated(s, s');
        }
      case Invept =>
      case _ =>
        var frame := StoreFrame(s, e);
        if frame.Some? {
          GuestStored(s, s', frame.value, IndexOf(StoreAddress(e)), e.value);
        }
    }
  }

  /** Shadow soundness over every run: the shadow is sound all along exactly if no event disturbs it; and host
      translations are only added. */
  lemma {:induction false} RunIsSound(states: seq<Paging>, es: seq<Event>, n: nat)
    requires IsRun(states, es) && n <= |es|
    ensures states[n].Consistent() && states[n].HostKept(states[0])
    ensures (forall i :: 0 <= i <= n ==> states[i].Sound()) <==>
      (forall i :: 0 <= i < n ==> !Disturbs(states[i], es[i]))
    ensures states[n].Sound() ==> states[n].Architectural()
  {
    hide EptWalk;
    hide Step;
    hide Disturbs;
    hide Paging.Consistent;
    hide Paging.Sound;
    hide Paging.Architectural;
    if n > 0 {
      RunIsSound(states, es, n - 1);
      assert Step(states[n - 1], es[n - 1], states[n - 1 + 1]);
      StepKeeps(states[n - 1], es[n - 1], states[n]);
    }
    if states[n].Sound() {
      SoundIsArchitectural(states[n]);
    }
  }

  /** In particular after any faults of both guests, entries of L2 and INVEPTs, in any order. */
  lemma FaultsKeepSound(states: seq<Paging>, es: seq<Event>)
    requires IsRun(states, es) && forall e :: e in es ==> e.HostFault? || e.NestedFault? || e.EnterL2? || e.Invept?
    ensures states[|es|].Sound() && states[|es|].Architectural()
  {
    hide Step;
    hide Paging.Sound;
    hide Paging.Architectural;
    forall i | 0 <= i < |es| ensures !Disturbs(states[i], es[i]) {
      assert es[i] in es;
    }
    RunIsSound(states, es, |es|);
  }

  /** No step takes more than four frames. */
  lemma StepsAreFew(s: Paging, s': Paging, page: nat, frame: nat, mapped: bool)
    requires HostStep(s, s', page, frame, mapped) || ShadowStep(s, s', page, mapped) || ShadowMade(s, s')
    ensures FewMore(s.used, s'.used, 4)
  {
    hide Tree;
    hide EptWalk;
    hide TablesAdded;
    if HostStep(s, s', page, frame, mapped) {
      AddedAreFew(s, s', s.hostTables, s'.hostTables, {frame});
    } else {
      AddedAreFew(s, s', s.shadowTables, s'.shadowTables, {});
      MoreIsFewer(s.used, s'.used, 3, 4);
    }
  }

  /** What mapping a page for L1 amounts to, after the allocator has given out `frame` for it. */
  lemma HostStepBuilt(s: Paging, s': Paging, used: iset<nat>, page: nat, frame: nat, mapped: bool)
    requires s.Consistent() && s' == s.(words := s'.words, hostTables := s'.hostTables, used := s'.used)
    requires frame !in s.used && forall f :: f in used <==> f in s.used || f == frame
    requires Grown(s.words, s'.words, used, s'.used, s.hostTables, s'.hostTables)
    requires |s'.hostTables.Keys| <= |s.hostTables.Keys| + 3 && Tree(s'.words, s.root, s'.hostTables, PERMISSIONS)
    requires EptWalk(s.words, s.root, page).None?
    requires forall q: nat ::
      EptWalk(s'.words, s'.root, q)
        == if mapped && SamePage(page, q) then Some(frame) else EptWalk(s.words, s.root, q)
    ensures HostStep(s, s', page, frame, mapped)
  {
    hide EptWalk;
    hide Tree;
    hide SamePage;
  }

  /** The same for the shadow. */
  lemma ShadowStepBuilt(s: Paging, s': Paging, page: nat, mapped: bool)
    requires s.Consistent() && s' == s.(words := s'.words, shadowTables := s'.shadowTables, used := s'.used)
    requires Grown(s.words, s'.words, s.used, s'.used, s.shadowTables, s'.shadowTables) && s.shadow != 0
    requires |s'.shadowTables.Keys| <= |s.shadowTables.Keys| + 3
    requires Tree(s'.words, s.shadow, s'.shadowTables, PERMISSIONS)
    requires Composite(s.words, s.root, s.top, page).Some?
    requires forall q: nat ::
      EptWalk(s'.words, s'.shadow, q)
        == if mapped && SamePage(page, q) then Composite(s.words, s.root, s.top, page)
           else EptWalk(s.words, s.shadow, q)
    ensures ShadowStep(s, s', page, mapped)
  {
    hide EptWalk;
    hide Composite;
    hide Tree;
    hide SamePage;
  }

  class VcpuMmu {
    const heap: Bootmem
    const mem: PhysMem
    /** Frame of the host's top table, `eptp_base`. */
    const eptpBase: nat
    /** Frame of the shadow's top table, in vmcs02's EPT_POINTER; 0 until L2 first runs. */
    var ept02: nat
    /** L1's frame of its own top table, in vmcs12's ept_pointer. */
    var ept12: nat
    ghost var hostTables: Owner
    ghost var shadowTables: Owner

    ghost function State(): Paging
      reads this, heap.bitmap, mem
    {
      Paging(mem.words, eptpBase, ept02, ept12, hostTables, shadowTables, heap.Frames())
    }

    ghost predicate Valid()
      reads this, heap, heap.bitmap, mem
    {
      heap.Valid() && State().Consistent()
    }

    /** An empty machine: host tables with no translation, no shadow yet. */
    constructor (heap: Bootmem, mem: PhysMem, root: nat, ept12: nat)
      requires heap.Valid() && heap.Used(root) && forall i :: Read(mem.words, root, i) == EMPTY
      ensures Valid() && State().Sound() && this.heap == heap && this.mem == mem && eptpBase == root
      ensures ept02 == 0 && this.ept12 == ept12 && forall q: nat :: EptWalk(mem.words, eptpBase, q) == None
    {
      this.heap, this.mem := heap, mem;
      eptpBase, ept02 := root, 0;
      this.ept12 := ept12;
      hostTables, shadowTables := map[root := []], map[];
      new;
      EmptyTree(mem.words, root, PERMISSIONS);
      forall q: nat ensures EptWalk(mem.words, eptpBase, q) == None {
        WalkReadsLeaf(mem.words, root, hostTables, q);
      }
    }

    /** What every event keeps: the invariant, and the host's translations. */
    twostate predicate Kept()
      reads this, heap, heap.bitmap, mem
    {
      Valid() && State().HostKept(old(State()))
    }

    /** The part of `nested_vmx_set_ctrl_state` that gives vmcs02 its top table on first use. Before it come
        the addresses that vmcs12 names; the first without translation ends it with -1. */
    method SetCtrlState(controls: seq<nat>) returns (ret: int, ok: bool)
      requires Valid()
      modifies this`ept02, this`shadowTables, heap, heap.bitmap, mem
      ensures Kept() && (ret == 0 || ret == -1)
      ensures ret == 0 <==>
        forall i :: 0 <= i < |controls| ==> old(EptWalk(mem.words, eptpBase, controls[i] / 0x1000)).Some?
      ensures ok && ret == 0 && old(ept02) == 0 ==> ShadowMade(old(State()), State())
      ensures !ok || ret == -1 || old(ept02) != 0 ==> State() == old(State())
      ensures !ok ==> heap.Exhausted() && ret == 0
    {
      hide EptWalk;
      hide Paging.Sound;
      hide Paging.Consistent;
      hide ShadowMade;
      hide Bootmem.Valid;
      hide Bootmem.Exhausted;
      ret, ok := if Reached(mem.words, eptpBase, controls) then 0 else -1, true;
      if ret == 0 && ept02 == 0 {
        ok := MakeShadow();
      }
    }

    method MakeShadow() returns (ok: bool)
      requires Valid() && ept02 == 0
      modifies this`ept02, this`shadowTables, heap, heap.bitmap, mem
      ensures Kept() && if ok then ShadowMade(old(State()), State()) else State() == old(State()) && heap.Exhausted()
    {
      hide EptWalk;
      hide Composite;
      hide Tree;
      hide Bootmem.Valid;
      hide Bootmem.Exhausted;
      hide Bootmem.Used;
      ghost var s := State();
      var table := NewTable(heap, mem);
      ok := table.Some?;
      if ok {
        ept02 := table.value;
        shadowTables := map[ept02 := []];
        ShadowCreated(s, State());
      } else {
        assert State() == s;
      }
    }

    /** `vmx_handle_ept_volation` in L1: a new page, not zeroed, for an address that the host's tables
        do not translate. */
    method HandleHostViolation(gpa: nat) returns (ok: bool)
      requires Valid() && EptWalk(mem.words, eptpBase, gpa / 0x1000).None?
      modifies this`hostTables, heap, heap.bitmap, mem
      ensures Kept() && (old(State().Sound()) ==> State().Sound())
      ensures ok ==> exists frame :: HostStep(old(State()), State(), gpa / 0x1000, frame, true)
      ensures ok ==> PermittedBy(OwnEntries(mem.words), eptpBase, gpa / 0x1000) == 0x7
      ensures ok ==> Leaf(mem.words, eptpBase, gpa / 0x1000).flags & 0x38 == 0x30
      ensures !ok ==> heap.Exhausted()
      ensures FewMore(old(State().used), State().used, 4)
    {
      hide EptWalk;
      hide Composite;
      hide Tree;
      hide Leaf;
      hide LeafAfter;
      hide Bootmem.Valid;
      hide Bootmem.Exhausted;
      hide Bootmem.Used;
      hide FewMore;
      hide PermittedBy;
      hide Grown;
      hide HostStep;
      hide Paging.Sound;
      ghost var s := State();
      var page := NewPage(heap);
      if page.None? {
        assert State() == s;
        NoneIsFew(s.used, 4);
        return false;
      }
      ghost var used := heap.Frames();
      ok, hostTables := EptMapPage(heap, mem, eptpBase, gpa, page.value * 0x1000, GUEST_ATTRIBUTES, hostTables);
      WalksAfterMap(s.words, mem.words, eptpBase, s.hostTables, hostTables, gpa / 0x1000, page.value, ok);
      HostStepBuilt(s, State(), used, gpa / 0x1000, page.value, ok);
      HostMapped(s, State(), gpa / 0x1000, page.value, ok);
      StepsAreFew(s, State(), gpa / 0x1000, page.value, ok);
      if ok {
        MappedPermits(mem.words, eptpBase, hostTables, gpa / 0x1000, page.value, Leaf(s.words, eptpBase, gpa / 0x1000));
      }
    }

    /** What the processor permits L2 on a page, and what L1's tables permit it. */
    function Allowed(page: nat): bv12
      reads this, mem
    {
      PermittedBy(OwnEntries(mem.words), ept02, page)
    }

    function AllowedByL1(page: nat): bv12
      reads this, mem
    {
      PermittedBy(L1Entries(mem.words, eptpBase), ept12, page)
    }

    /** `nested_vmx_handle_ept_volation`: put the composite translation of one L2 page into the shadow.
        Returns 1, which ends the run, when L1 or the host has no translation. */
    method HandleNestedViolation(l2gpa: nat) returns (ret: int, ok: bool)
      requires Valid() && ept02 != 0
      modifies this`shadowTables, heap, heap.bitmap, mem
      ensures Kept() && (old(State().Sound()) ==> State().Sound())
      ensures ret == if old(Composite(mem.words, eptpBase, ept12, l2gpa / 0x1000)).None? then 1 else 0
      ensures ret == 1 ==> ok && State() == old(State())
      ensures ret == 0 && ok && old(EptWalk(mem.words, ept02, l2gpa / 0x1000)).None? ==>
        ShadowStep(old(State()), State(), l2gpa / 0x1000, true)
      ensures ret == 0 && ok ==>
        EptWalk(mem.words, ept02, l2gpa / 0x1000) == old(Composite(mem.words, eptpBase, ept12, l2gpa / 0x1000))
      ensures ret == 0 && ok ==> Leaf(mem.words, ept02, l2gpa / 0x1000).flags & 0x38 == 0x30
      ensures ret == 0 && ok ==> Allowed(l2gpa / 0x1000) == 0x7 && (
        Allowed(l2gpa / 0x1000) == old(AllowedByL1(l2gpa / 0x1000)) <==>
          old(EveryEntryGrants(L1Entries(mem.words, eptpBase), ept12, l2gpa / 0x1000)))
      ensures !ok ==> heap.Exhausted()
      ensures FewMore(old(State().used), State().used, 4)
    {
      hide EptWalk;
      hide Composite;
      hide NestedWalk;
      hide Tree;
      hide Leaf;
      hide LeafAfter;
      hide Bootmem.Valid;
      hide Bootmem.Exhausted;
      hide Bootmem.Used;
      hide FewMore;
      hide PermittedBy;
      hide EveryEntryGrants;
      hide Grown;
      hide Paging.Sound;
      CompositeIs(mem.words, eptpBase, ept12, l2gpa / 0x1000);
      var l1page := NestedWalk(L1Entries(mem.words, eptpBase), ept12, l2gpa / 0x1000);
      NoneIsFew(State().used, 4);
      if l1page.None? {
        return 1, true;
      }
      var frame := EptWalk(mem.words, eptpBase, l1page.value);
      if frame.None? {
        return 1, true;
      }
      ghost var s := State();
      AllPermittedExactly(L1Entries(mem.words, eptpBase), ept12, l2gpa / 0x1000);
      ret := 0;
      ok, shadowTables := EptMapPage(heap, mem, ept02, l2gpa, frame.value * 0x1000, GUEST_ATTRIBUTES, shadowTables);
      WalksAfterMap(s.words, mem.words, ept02, s.shadowTables, shadowTables, l2gpa / 0x1000, frame.value, ok);
      ShadowStepBuilt(s, State(), l2gpa / 0x1000, ok);
      ShadowMapped(s, State(), l2gpa / 0x1000, ok);
      StepsAreFew(s, State(), l2gpa / 0x1000, 0, ok);
      if ok {
        MappedPermits(mem.words, ept02, shadowTables, l2gpa / 0x1000, frame.value,
          Leaf(s.words, ept02, l2gpa / 0x1000));
      }
    }

    /** A guest stores the word at offset `8 * index` of a page its tables translate to `frame`. */
    method Store(frame: nat, index: nat, value: Word)
      requires Valid() && State().GuestFrame(frame)
      modifies mem
      ensures Kept() && State() == old(State()).(words := old(mem.words)[Slot(frame, index) := value])
    {
      hide EptWalk;
      hide Composite;
      hide Tree;
      ghost var s := State();
      mem.words := mem.words[Slot(frame, index) := value];
      GuestStored(s, State(), frame, index, value);
    }

    /** One event, with the part of the exit handler that answers it. A fault for a page that is translated
        already is none. `vmx_handle_invept` skips the instruction. */
    method Handle(e: Event) returns (ok: bool)
      requires Valid()
      modifies this, heap, heap.bitmap, mem
      ensures Kept() && (ok ==> Step(old(State()), e, State()))
      ensures !ok ==> (old(State().Sound()) ==> State().Sound())
      ensures !ok ==> heap.Exhausted() || Fails(old(State()), e)
      ensures FewMore(old(State().used), State().used, 4)
    {
      hide EptWalk;
      hide Composite;
      hide Tree;
      hide TablesAdded;
      hide FewMore;
      hide Redirects;
      hide Bootmem.Valid;
      hide Bootmem.Exhausted;
      ghost var s := State();
      ok := true;
      NoneIsFew(s.used, 4);
      match e {
        case HostFault(gpa) =>
          if EptWalk(mem.words, eptpBase, gpa / 0x1000).None? {
            ok := HandleHostViolation(gpa);
          }
        case NestedFault(l2gpa) =>
          if ept02 == 0 {
            return false;
          }
          if EptWalk(mem.words, ept02, l2gpa / 0x1000).None? {
            var ret;
            ret, ok := HandleNestedViolation(l2gpa);
            ok := ok && ret == 0;
          }
        case StoreL1(gpa, value) =>
          var frame := EptWalk(mem.words, eptpBase, gpa / 0x1000);
          if frame.Some? {
            Store(frame.value, IndexOf(gpa), value);
          }
        case StoreL2(l2gpa, value) =>
          if ept02 != 0 {
            var frame := EptWalk(mem.words, ept02, l2gpa / 0x1000);
            if frame.Some? {
              Store(frame.value, IndexOf(l2gpa), value);
            }
          }
        case NewTop(top) =>
          ept12 := top;
        case EnterL2(controls) =>
          var ret;
          ret, ok := SetCtrlState(controls);
          if State() != s {
            StepsAreFew(s, State(), 0, 0, true);
          }
        case Invept =>
      }
    }

    /** Any run of events: the first `n` take place, which is all of them unless memory runs out or one cannot
        be answered. The shadow is sound all along exactly if none of the events disturbs it. */
    method Run(events: seq<Event>) returns (n: nat, ghost states: seq<Paging>)
      requires Valid() && State().Sound()
      modifies this, heap, heap.bitmap, mem
      ensures Kept() && n <= |events|
      ensures IsRun(states, events[..n]) && states[0] == old(State()) && (n == |events| ==> State() == states[n])
      ensures n < |events| ==> heap.Exhausted() || Fails(states[n], events[n])
      ensures (forall i :: 0 <= i <= n ==> states[i].Sound()) <==>
        (forall i :: 0 <= i < n ==> !Disturbs(states[i], events[i]))
      ensures (forall i :: 0 <= i < n ==> !Disturbs(states[i], events[i])) ==>
        State().Sound() && State().Architectural()
      ensures FewMore(old(State().used), State().used, 4 * |events|)
    {
      hide EptWalk;
      hide Composite;
      hide Tree;
      hide Step;
      hide Disturbs;
      hide Fails;
      hide FewMore;
      hide Paging.Architectural;
      hide Paging.Sound;
      hide Bootmem.Valid;
      hide Bootmem.Exhausted;
      n, states := 0, [State()];
      NoneIsFew(State().used, 0);
      while n < |events|
        invariant n <= |events| && Kept() && IsRun(states, events[..n]) && |states| == n + 1
        invariant states[n] == State() && states[0] == old(State())
        invariant FewMore(old(State().used), State().used, 4 * n)
      {
        ghost var s := State();
        var ok := Handle(events[n]);
        FewInTwo(old(State().used), s.used, State().used, 4 * n, 4);
        MoreIsFewer(old(State().used), State().used, 4 * n + 4, 4 * |events|);
        if !ok {
          break;
        }
        assert events[..n + 1][..n] == events[..n];
        states := states + [State()];
        n := n + 1;
      }
      MoreIsFewer(old(State().used), State().used, 4 * |events|, 4 * |events|);
      RunIsSound(states, events[..n], n);
      if State().Sound() {
        SoundIsArchitectural(State());
      }
    }
  }
}
