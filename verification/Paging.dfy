/** paging.c as it runs: every access goes through a pointer, which the processor resolves through its
    TLB or its walk once paging is on. */
module Paging {
  import opened Arithmetic
  import opened Words
  import opened Mmu
  import opened PageTables
  import opened AddressSpaces
  import opened FrameAccounting
  import opened Pmm

  /** The pointers of paging.c lead where they should: `current` to the directory, `tables` to the
      frame behind slot 1023, through that slot once paging is on. */
  ghost predicate Pointers(m: Memory, d: FrameNo, paging: bool, current: Word, tables: Word)
  {
    && Windowed(m, d, paging, tables)
    && current % 4096 == 0
    && (if paging then Translate(m, d, PageOf(current)) == Some(d) else FrameOf(current) == d)
  }

  ghost predicate Windowed(m: Memory, d: FrameNo, paging: bool, tables: Word)
  {
    && Tree(m, d)
    && Present(m[d][WINDOW])
    && Slot(m, TablesOf(m, d), WINDOW) == Slot(m, d, WINDOW)
    && tables == (if paging then 0xFFFF_F000 else 4096 * TablesOf(m, d))
  }

  /** Entering a table in either copy of the directory leaves the pointers where they lead, and no
      cached translation becomes stale. */
  lemma PointersNewTable(s: Phys, d: FrameNo, i: Index, x: Word, paging: bool, current: Word, tables: Word)
    requires System(s, {d}) && Pointers(s.mem, d, paging, current, tables)
    requires i != WINDOW && Slot(s.mem, d, i) == None && NamesFirstFree(s, x)
    ensures var m := Poke(s.mem, TablesOf(s.mem, d), i, x);
            && Pointers(m, d, paging, current, tables) && Lost(s.mem, m, d) == {}
            && Poke(m, d, i, x) == AddTable(s, d, i, x).mem && Lost(m, Poke(m, d, i, x), d) == {}
            && Pointers(Poke(m, d, i, x), d, paging, current, tables)
  {
    var m := Poke(s.mem, TablesOf(s.mem, d), i, x);
    assert Space(s.mem, d);
    LostByLeaf(s.mem, d, WINDOW, i, x);
    WindowShowsTables(s.mem, d, i, 0);
    assert forall k: Index :: Slot(m, d, k) == Slot(s.mem, d, k);
    LostBySlot(m, d, i, x);
    AddTableKeepsSystem(s, {d}, d, i, x);
    assert Space(Poke(m, d, i, x), d);
    NotLost(s.mem, m, d, PageOf(current));
    NotLost(m, Poke(m, d, i, x), d, PageOf(current));
  }

  lemma NotLost(m: Memory, m': Memory, d: FrameNo, p: PageNo)
    requires p !in Lost(m, m', d)
    ensures Translate(m, d, p).Some? ==> Translate(m', d, p) == Translate(m, d, p)
  {
  }

  /** Where the processor's walk puts an address, if anywhere. */
  ghost function Physical(m: Memory, cr3: FrameNo, paging: bool, a: Word): Option<FrameNo>
  {
    if paging then Translate(m, cr3, PageOf(a)) else Some(FrameOf(a))
  }

  /** The cached translations that no longer agree with the tables. */
  ghost function Stale(tlb: map<PageNo, FrameNo>, m: Memory, cr3: FrameNo): set<PageNo>
  {
    set p | p in tlb && Translate(m, cr3, p) != Some(tlb[p])
  }

  ghost predicate Accessible(m: Memory, cr3: FrameNo, tlb: map<PageNo, FrameNo>, paging: bool, a: Word)
  {
    Physical(m, cr3, paging, a).Some? && (paging ==> PageOf(a) !in Stale(tlb, m, cr3))
  }

  ghost function DirOf(paging: bool, cr3: FrameNo, current: Word): FrameNo
  {
    if paging then cr3 else FrameOf(current)
  }

  /** Both pointers can be followed, to the directory and to the frame behind slot 1023. */
  lemma PointersReach(m: Memory, cr3: FrameNo, tlb: map<PageNo, FrameNo>, paging: bool, current: Word, tables: Word,
          k: Index)
    requires Pointers(m, DirOf(paging, cr3, current), paging, current, tables)
    ensures current % 4096 == 0 && tables % 4096 == 0
    ensures Physical(m, cr3, paging, At(current, k)) == Some(DirOf(paging, cr3, current))
    ensures Physical(m, cr3, paging, At(tables, k)) == Some(TablesOf(m, DirOf(paging, cr3, current)))
    ensures (paging ==> PageOf(current) !in Stale(tlb, m, cr3)) ==> Accessible(m, cr3, tlb, paging, At(current, k))
    ensures (paging ==> PageAt(WINDOW, WINDOW) !in Stale(tlb, m, cr3)) ==>
      Accessible(m, cr3, tlb, paging, At(tables, k))
  {
    if paging {
      assert PageOf(At(tables, k)) == PageAt(WINDOW, WINDOW);
    }
  }

  /** `k_pt[j]` for the table in directory entry `slot`, which sits in slot `i`. */
  function TablePointer(paging: bool, slot: Word, i: Index, j: Index): Word
    requires paging || slot % 4096 < 256
  {
    if paging then WindowAddress(i, j)
    else
      ReadBackAligned(slot);
      At(Address(slot), j)
  }

  /** Through the window, or through the physical address before paging: the same table word. */
  lemma TableReach(m: Memory, cr3: FrameNo, tlb: map<PageNo, FrameNo>, paging: bool, current: Word, tables: Word,
          i: Index, j: Index)
    requires var d := DirOf(paging, cr3, current);
             && Windowed(m, d, paging, tables) && Slot(m, d, i).Some?
             && Slot(m, TablesOf(m, d), i) == Slot(m, d, i) && m[d][i] % 4096 < 256
    requires paging ==> PageAt(WINDOW, i) !in Stale(tlb, m, cr3)
    ensures var e := m[DirOf(paging, cr3, current)][i];
            var a := TablePointer(paging, e, i, j);
            Physical(m, cr3, paging, a) == Some(FrameOf(e)) && WordIn(a) == j && Accessible(m, cr3, tlb, paging, a)
  {
    ReadBackAligned(m[DirOf(paging, cr3, current)][i]);
  }

  /** The software walk of a page of the space of `n`, the second step in the space in force. */
  lemma WalkReach(m: Memory, cr3: FrameNo, tlb: map<PageNo, FrameNo>, paging: bool, n: FrameNo, p: PageNo)
    requires Slot(m, n, p / 1024).Some?
    requires if paging then SelfMapped(m, cr3) && Slot(m, cr3, p / 1024).Some? else m[n][p / 1024] % 4096 < 256
    requires paging ==> Stale(tlb, m, cr3) == {}
    ensures var a := TablePointer(paging, m[n][p / 1024], p / 1024, p % 1024);
            Accessible(m, cr3, tlb, paging, a) &&
            m[Physical(m, cr3, paging, a).value][WordIn(a)] == Leaf(m, if paging then cr3 else n, p)
  {
    if paging {
      WindowShowsTables(m, cr3, p / 1024, p % 1024);
    } else {
      ReadBackAligned(m[n][p / 1024]);
    }
  }

  /** Writing a leaf leaves the pointers where they lead, unless it moves the directory's own page. */
  lemma PointersLeaf(m: Memory, d: FrameNo, i: Index, j: Index, x: Word, paging: bool, current: Word, tables: Word)
    requires Pointers(m, d, paging, current, tables) && Slot(m, d, i).Some? && (i == WINDOW ==> j != WINDOW)
    ensures var m' := Poke(m, FrameOf(m[d][i]), j, x);
            && Lost(m, m', d) <= {PageAt(i, j)} && Windowed(m', d, paging, tables)
            && (Pointers(m', d, paging, current, tables) <==> StaysPut(d, paging, current, PageAt(i, j), x))
  {
    var m' := Poke(m, FrameOf(m[d][i]), j, x);
    LostByLeaf(m, d, i, j, x);
    PokeLeaf(m, d, i, j, x, PageOf(current));
    assert forall k: Index :: Slot(m', d, k) == Slot(m, d, k);
    assert i != WINDOW ==> Slot(m, d, i) != Slot(m, d, WINDOW);
  }

  /** Writing `x` for page `p` leaves the directory where the pointer to it leads. */
  predicate StaysPut(d: FrameNo, paging: bool, current: Word, p: PageNo, x: Word)
  {
    paging && p == PageOf(current) ==> Present(x) && FrameOf(x) == d
  }

  /** Clearing the entry of page `p` does not empty a table while the pointer to the directory, which clearing
      its slot needs, is already gone. */
  ghost predicate PointerLasts(m: Memory, d: FrameNo, paging: bool, current: Word, p: PageNo)
  {
    paging && p == PageOf(current) ==> !Empties(m, d, p)
  }

  /** Clearing the slot of an emptied table, then its copy behind slot 1023, leaves the pointers where
      they lead; only the table's page in the window may become stale, by the second write. */
  lemma PointersDropTable(m: Memory, d: FrameNo, i: Index, paging: bool, current: Word, tables: Word)
    requires Spaces(m, {d}) && Pointers(m, d, paging, current, tables)
    requires i != WINDOW && Slot(m, d, i).Some? && Empty(m[FrameOf(m[d][i])])
    ensures var m1 := Poke(m, d, i, 0);
            var m2 := Poke(m1, TablesOf(m, d), i, 0);
            && Pointers(m1, d, paging, current, tables) && Lost(m, m1, d) == {}
            && TablesOf(m1, d) == TablesOf(m, d) && m1[TablesOf(m, d)][i] == m[TablesOf(m, d)][i]
            && Slot(m, TablesOf(m, d), i).Some?
            && Slot(m1, d, WINDOW) == Slot(m, d, WINDOW) == Some(TablesOf(m, d))
            && Pointers(m2, d, paging, current, tables) && Lost(m1, m2, d) <= {PageAt(WINDOW, i)}
            && m2 == DropTable(PageTables.Phys(m, []), d, i).mem
    ensures paging ==> PageOf(current) != PageAt(WINDOW, i)
  {
    var m1 := Poke(m, d, i, 0);
    assert Space(m, d);
    WindowShowsTables(m, d, i, 0);
    LostBySlot(m, d, i, 0);
    NotLost(m, m1, d, PageOf(current));
    assert forall k: Index :: Slot(m1, d, k) == if k == i then None else Slot(m, d, k);
    PointersLeaf(m1, d, WINDOW, i, 0, paging, current, tables);
  }

  /** The frame behind a directory pointer, as seen from the space of `d`. */
  function Home(m: Memory, d: FrameNo, pdir: Word): Option<FrameNo>
  {
    Translate(m, d, PageOf(pdir))
  }

  /** What set_page_directory loads for a pointer that is mapped in the space of `d`: the frame behind it, or 0
      if the directory that is there has no table for the pointer itself. */
  function Target(m: Memory, d: FrameNo, pdir: Word): FrameNo
    requires Home(m, d, pdir).Some?
  {
    if Slot(m, Home(m, d, pdir).value, VAddrToPde(pdir)).Some? then Home(m, d, pdir).value else 0
  }

  /** `v` is a page of kernel memory below the copied range, in frame `f` in the space of `d`. */
  ghost predicate KernelPage(m: Memory, d: FrameNo, v: Word, f: FrameNo)
  {
    && v % 4096 == 0 && v != 0 && VAddrToPde(v) != WINDOW && !AddressSpaces.Copied(PageOf(v))
    && Translate(m, d, PageOf(v)) == Some(f)
  }

  lemma KernelPageSlot(m: Memory, ds: set<FrameNo>, d: FrameNo, v: Word, f: FrameNo)
    requires Spaces(m, ds) && d in ds && KernelPage(m, d, v, f)
    ensures Slot(m, d, VAddrToPde(v)).Some? && m[d][VAddrToPde(v)] % 4096 < 256
  {
    assert Space(m, d);
    PageSplit(v);
  }

  /** A space whose directory can be reached through its own page can be used. */
  lemma EnterSpace(s: Phys, ds: set<FrameNo>, d: FrameNo, v: Word)
    requires System(s, ds) && d in ds && v % 4096 == 0 && Translate(s.mem, d, PageOf(v)) == Some(d)
    ensures Pointers(s.mem, d, true, v, 0xFFFF_F000) && System(s, {d})
  {
    assert Space(s.mem, d);
    forall k | 0 <= k < |s.free|
      ensures !Structural(s.mem, {d}, FrameOf(s.free[k]))
    {
      assert !Structural(s.mem, ds, FrameOf(s.free[k]));
    }
  }

  /** `pdir` points to the directory `d` of one of the spaces, also from inside that space. */
  ghost predicate InSpace(s: Phys, ds: set<FrameNo>, d: FrameNo, pdir: Word)
  {
    match s
    case Phys(m, _) => System(s, ds) && d in ds && pdir % 4096 == 0 && Translate(m, d, PageOf(pdir)) == Some(d)
  }

  /** Kernel memory is mapped alike in every space. */
  ghost predicate KernelWide(m: Memory, ds: set<FrameNo>, v: Word, f: FrameNo)
  {
    forall d | d in ds :: KernelPage(m, d, v, f)
  }

  /** What was mapped alike in the spaces `ds` is so in `ds'`, in the same frames. */
  ghost predicate KernelMemoryKept(m: Memory, m': Memory, ds: set<FrameNo>, ds': set<FrameNo>)
  {
    forall v, f {:trigger KernelWide(m, ds, v, f)} | KernelWide(m, ds, v, f) :: KernelWide(m', ds', v, f)
  }

  lemma KernelWideSame(m: Memory, m': Memory, ds: set<FrameNo>, v: Word, f: FrameNo)
    requires SameView(m, m', ds) && KernelWide(m, ds, v, f)
    ensures KernelWide(m', ds, v, f)
  {
    forall d | d in ds
      ensures KernelPage(m', d, v, f)
    {
      assert KernelPage(m, d, v, f);
    }
  }

  /** The source's and the new directory's pages are in place in both spaces. */
  ghost predicate Bridge(s: Phys, ds: set<FrameNo>, src: FrameNo, srcDir: Word, n: FrameNo, newDir: Word)
  {
    && System(s, ds) && src in ds && n in ds && src != n
    && KernelPage(s.mem, src, srcDir, src) && KernelPage(s.mem, src, newDir, n)
    && KernelPage(s.mem, n, srcDir, src) && KernelPage(s.mem, n, newDir, n)
  }

  /** Kernel memory stays mapped alike, now also in the new space. */
  lemma CopyKeepsKernelWide(s: Phys, ds: set<FrameNo>, kernel: FrameNo, src: FrameNo, n: FrameNo, w: FrameNo,
          v: Word, f: FrameNo)
    requires System(s, ds) && kernel in ds && src in ds && Spare(s, ds, n, w) && KernelWide(s.mem, ds, v, f)
    requires CopySpace(s, kernel, src, n, w).Some?
    ensures KernelWide(CopySpace(s, kernel, src, n, w).value.mem, ds + {n}, v, f)
  {
    var s1, q, t := s.(mem := NewSpace(s.mem, kernel, n, w)), PageOf(v), CopySpace(s, kernel, src, n, w).value;
    NewSpaceKeepsSystem(s, ds, kernel, n, w);
    assert !Structural(s.mem, ds, n);
    assert KernelPage(s.mem, kernel, v, f);
    PageSplit(v);
    NewSpaceTranslates(s, ds, kernel, n, w, kernel, q);
    CopyKeepsMapped(s1, ds + {n}, src, n, 1023 * 1024, q);
    forall d | d in ds
      ensures KernelPage(t.mem, d, v, f)
    {
      assert KernelPage(s.mem, d, v, f);
      NewSpaceTranslates(s, ds, kernel, n, w, d, q);
      CopyLeavesOthers(s1, ds + {n}, src, n, 1023 * 1024, d, q);
    }
  }

  lemma CopyKeepsKernelMemory(s: Phys, ds: set<FrameNo>, kernel: FrameNo, src: FrameNo, n: FrameNo, w: FrameNo)
    requires System(s, ds) && kernel in ds && src in ds && Spare(s, ds, n, w)
    ensures CopySpace(s, kernel, src, n, w).Some? ==>
      KernelMemoryKept(s.mem, CopySpace(s, kernel, src, n, w).value.mem, ds, ds + {n})
  {
    forall v, f | CopySpace(s, kernel, src, n, w).Some? && KernelWide(s.mem, ds, v, f)
      ensures KernelWide(CopySpace(s, kernel, src, n, w).value.mem, ds + {n}, v, f)
    {
      CopyKeepsKernelWide(s, ds, kernel, src, n, w, v, f);
    }
  }

  lemma CopyPageKeepsBridge(s: Phys, ds: set<FrameNo>, src: FrameNo, srcDir: Word, n: FrameNo, newDir: Word, p: PageNo)
    requires Bridge(s, ds, src, srcDir, n, newDir) && p / 1024 != WINDOW && CopyPage(s, src, n, p).Some?
    ensures Bridge(CopyPage(s, src, n, p).value, ds, src, srcDir, n, newDir)
  {
    PageSplit(srcDir);
    PageSplit(newDir);
    CopyPageKeepsSystem(s, ds, src, n, p);
    CopyPageInOther(s, ds, src, n, p, src, PageOf(srcDir));
    CopyPageInOther(s, ds, src, n, p, src, PageOf(newDir));
    CopyPageKeepsMapped(s, ds, src, n, p, PageOf(srcDir));
    CopyPageKeepsMapped(s, ds, src, n, p, PageOf(newDir));
  }

  lemma {:induction false} CopyKeepsBridge(s: Phys, ds: set<FrameNo>, src: FrameNo, srcDir: Word, n: FrameNo,
          newDir: Word, k: nat)
    requires Bridge(s, ds, src, srcDir, n, newDir) && k <= 1023 * 1024 && CopyPages(s, src, n, k).Some?
    ensures Bridge(CopyPages(s, src, n, k).value, ds, src, srcDir, n, newDir)
  {
    if k > 0 {
      var t, p := CopyPagesLast(s, src, n, k);
      CopyKeepsBridge(s, ds, src, srcDir, n, newDir, p);
      CopyPageKeepsBridge(t, ds, src, srcDir, n, newDir, p);
    }
  }

  /** What a write to a frame without directory or table leaves to the space in force. */
  lemma SpareKeepsSpace(s: Phys, ds: set<FrameNo>, d: FrameNo, pdir: Word, f: FrameNo, content: Frame)
    requires InSpace(s, ds, d, pdir) && !Structural(s.mem, ds, f)
    ensures InSpace(s.(mem := s.mem[f := content]), ds, d, pdir) && SameView(s.mem, s.mem[f := content], ds)
    ensures Outside(s.mem, d, f)
    ensures forall h: FrameNo :: Structural(s.mem[f := content], ds, h) == Structural(s.mem, ds, h)
  {
    WriteSpare(s, ds, f, content);
    assert Translate(s.mem[f := content], d, PageOf(pdir)) == Translate(s.mem, d, PageOf(pdir));
  }

  /** The new space sees kernel memory as the kernel does. */
  lemma BridgeOfNew(s: Phys, ds: set<FrameNo>, kernel: FrameNo, src: FrameNo, srcDir: Word, n: FrameNo, w: FrameNo,
          newDir: Word)
    requires System(s, ds) && kernel in ds && src in ds && Spare(s, ds, n, w)
    requires KernelWide(s.mem, ds, srcDir, src) && KernelWide(s.mem, ds, newDir, n)
    ensures Bridge(s.(mem := NewSpace(s.mem, kernel, n, w)), ds + {n}, src, srcDir, n, newDir)
  {
    assert !Structural(s.mem, ds, n);
    PageSplit(srcDir);
    PageSplit(newDir);
    NewSpaceKeepsSystem(s, ds, kernel, n, w);
    NewSpaceTranslates(s, ds, kernel, n, w, src, PageOf(srcDir));
    NewSpaceTranslates(s, ds, kernel, n, w, src, PageOf(newDir));
    assert KernelPage(s.mem, kernel, srcDir, src) && KernelPage(s.mem, kernel, newDir, n);
    assert KernelPage(s.mem, src, srcDir, src) && KernelPage(s.mem, src, newDir, n);
  }

  lemma PokeCopied(m: Memory, f: FrameNo, g: FrameNo, k: Index, x: Word)
    ensures Poke(m[f := m[g]], f, k, x) == m[f := m[g][k := x]]
  {
  }

  /** After a write to a frame without directory or table, the space of `e` can still be entered. */
  lemma SpareThenSwitch(s: Phys, ds: set<FrameNo>, d: FrameNo, pdir: Word, f: FrameNo, content: Frame, v: Word,
          e: FrameNo)
    requires InSpace(s, ds, d, pdir) && !Structural(s.mem, ds, f) && e in ds && KernelWide(s.mem, ds, v, e)
    ensures InSpace(s.(mem := s.mem[f := content]), ds, d, pdir)
    ensures KernelPage(s.mem[f := content], d, v, e) && KernelPage(s.mem[f := content], e, v, e)
  {
    SpareKeepsSpace(s, ds, d, pdir, f, content);
    KernelWideSame(s.mem, s.mem[f := content], ds, v, e);
  }

  /** Between the two halves: the kernel's space can be used, and the window table can be written there. */
  lemma DirectoryRootWritten(s: Phys, ds: set<FrameNo>, kernel: FrameNo, kernelDir: Word, src: FrameNo, srcDir: Word,
          n: FrameNo, w: FrameNo, ptMap: Word)
    requires System(s, ds) && kernel in ds && Spare(s, ds, n, w) && KernelWide(s.mem, ds, kernelDir, kernel)
    requires KernelWide(s.mem, ds, srcDir, src) && KernelWide(s.mem, ds, ptMap, w)
    ensures var m := s.mem[n := s.mem[kernel][WINDOW := WindowEntry(w)]];
            && InSpace(s.(mem := m), ds, kernel, kernelDir) && !Structural(m, ds, w)
            && KernelWide(m, ds, srcDir, src) && KernelWide(m, ds, ptMap, w)
            && PhysicalAddress(m, kernel, PageOf(ptMap)) == PhysicalAddress(s.mem, kernel, PageOf(ptMap))
            && m[w := m[TablesOf(m, kernel)][WINDOW := WindowEntry(w)]] == NewSpace(s.mem, kernel, n, w)
  {
    var m := s.mem[n := s.mem[kernel][WINDOW := WindowEntry(w)]];
    assert KernelPage(s.mem, kernel, kernelDir, kernel);
    SpareKeepsSpace(s, ds, kernel, kernelDir, n, s.mem[kernel][WINDOW := WindowEntry(w)]);
    KernelWideSame(s.mem, m, ds, srcDir, src);
    KernelWideSame(s.mem, m, ds, ptMap, w);
    assert Space(s.mem, kernel);
    assert Slot(s.mem, kernel, WINDOW) == Some(TablesOf(s.mem, kernel)) && Slot(s.mem, kernel, WINDOW) != Some(n);
  }

  /** 0xFFFFF000 is the window table itself. */
  lemma SelfWindow(m: Memory, ds: set<FrameNo>, d: FrameNo, w: FrameNo)
    requires Spaces(m, ds) && d in ds && !Structural(m, ds, w)
    ensures Home(m, d, 0xFFFF_F000) == Some(TablesOf(m, d)) && w != TablesOf(m, d)
  {
    assert Space(m, d);
    WindowShowsTables(m, d, WINDOW, 0);
    assert PageOf(0xFFFF_F000) == PageAt(WINDOW, WINDOW);
    assert Slot(m, d, WINDOW) == Some(TablesOf(m, d));
  }

  /** The two roots init_paging writes into clear frames: a self-mapped space that maps nothing. */
  lemma FreshRoots(s: Phys, d: FrameNo, t: FrameNo)
    requires d != t && s.mem[d] == s.mem[t] && Empty(s.mem[d])
    ensures var m := Poke(Poke(s.mem, d, WINDOW, WindowEntry(t)), t, WINDOW, WindowEntry(t));
            && Spaces(m, {d}) && TablesOf(m, d) == t && Structure(m, d) == {d, t}
            && (forall q: PageNo | q / 1024 != WINDOW :: Translate(m, d, q) == None)
  {
    var m := Poke(Poke(s.mem, d, WINDOW, WindowEntry(t)), t, WINDOW, WindowEntry(t));
    assert forall i: Index :: Slot(m, d, i) == if i == WINDOW then Some(t) else None;
    assert m[d] == m[t];
    assert Space(m, d);
  }

  ghost predicate Touched(boot: set<PageNo>, i: Index)
  {
    exists q | q in boot :: q / 1024 == i
  }

  /** The frames init_paging takes: two roots, a table for its low pages and one for its directory's own page. */
  function BootFrames(d: FrameNo): nat
  {
    if d / 1024 == 0 then 3 else 4
  }

  /** The entries written so far: those of the pages, for users, and the window's own, for the kernel. */
  ghost predicate BootEntries(m: Memory, d: FrameNo, boot: set<PageNo>)
  {
    && m[d][WINDOW] == 4096 * (TablesOf(m, d) as int) + 3
    && forall q: PageNo {:trigger Leaf(m, d, q)} | q in boot && q / 1024 != WINDOW ::
       Leaf(m, d, q) == 4096 * (q as int) + 7
  }

  lemma MapKeepsEntries(s: Phys, d: FrameNo, boot: set<PageNo>, q: PageNo, addr: Word)
    requires System(s, {d}) && BootEntries(s.mem, d, boot) && q / 1024 != WINDOW
    requires FrameOf(addr) == q && addr % 4096 == 0
    requires forall p: PageNo | p in boot && p / 1024 != WINDOW :: Slot(s.mem, d, p / 1024).Some?
    requires Slot(s.mem, d, q / 1024).Some? || s.free != []
    ensures BootEntries(MapPage(s, d, q, addr, COPY_FLAGS).mem, d, boot + {q})
  {
    AlignedBase(addr);
    assert Space(s.mem, d);
    MapSlotOnly(s, d, q, addr);
    forall p: PageNo | p in boot + {q} && p / 1024 != WINDOW
      ensures Leaf(MapPage(s, d, q, addr, COPY_FLAGS).mem, d, p) == 4096 * (p as int) + 7
    {
      if p != q {
        MapLeavesEntries(s, {d}, d, q, addr, COPY_FLAGS, p);
        assert Leaf(s.mem, d, p) == 4096 * (p as int) + 7;
      }
    }
  }

  lemma MapSlotOnly(s: Phys, d: FrameNo, q: PageNo, addr: Word)
    requires System(s, {d}) && q / 1024 != WINDOW && addr % 256 == 0
    requires Slot(s.mem, d, q / 1024).Some? || s.free != []
    ensures var m' := MapPage(s, d, q, addr, COPY_FLAGS).mem;
            m'[d][WINDOW] == s.mem[d][WINDOW] && Leaf(m', d, q) == addr + 7
  {
    var i, s1 := q / 1024, s;
    MapEntry(s, {d}, d, q, addr, COPY_FLAGS);
    assert Space(s.mem, d);
    if Slot(s.mem, d, i) == None {
      EntryNamesFirstFree(s, {d}, COPY_FLAGS);
      AddTableKeepsSystem(s, {d}, d, i, PtEntry(s.free[0], COPY_FLAGS));
      s1 := AddTable(s, d, i, PtEntry(s.free[0], COPY_FLAGS));
    }
    assert Slot(s1.mem, d, i) == Some(FrameOf(s1.mem[d][i]));
  }

  /** Pages of the identity map, and nothing else, are mapped, in tables of their own; the pool is free
      frames and tables. */
  ghost predicate Booting(s: Phys, d: FrameNo, boot: set<PageNo>, pool: set<FrameNo>)
  {
    && System(s, {d}) && FreeClear(s) && FreeSet(s) + Structure(s.mem, d) == pool && BootEntries(s.mem, d, boot)
    && (forall q: PageNo | q / 1024 != WINDOW :: Translate(s.mem, d, q) == if q in boot then Some(q) else None)
    && (forall i: Index | i != WINDOW && Slot(s.mem, d, i).Some? :: Touched(boot, i))
  }

  lemma BootSlot(s: Phys, d: FrameNo, boot: set<PageNo>, pool: set<FrameNo>, q: PageNo)
    requires Booting(s, d, boot, pool) && q / 1024 != WINDOW && q in boot
    ensures Slot(s.mem, d, q / 1024).Some?
  {
    assert Translate(s.mem, d, q) == Some(q);
  }

  /** What the first two frames of a clear pool become. */
  function Roots(s: Phys): Phys
    requires |s.free| >= 2
  {
    var d, t := FrameOf(s.free[0]), FrameOf(s.free[1]);
    PageTables.Phys(Poke(Poke(s.mem, d, WINDOW, WindowEntry(t)), t, WINDOW, WindowEntry(t)), s.free[2..])
  }

  lemma RootsBoot(s: Phys)
    requires FreeFrames(s, {}) && FreeClear(s) && |s.free| >= 2
    ensures var d, t := FrameOf(s.free[0]), FrameOf(s.free[1]);
            && d != t && s.free[0] == 4096 * (d as int) && s.free[1] == 4096 * (t as int)
            && Booting(Roots(s), d, {}, FreeSet(s)) && Spaces(Roots(s).mem, {d})
            && Pointers(Roots(s).mem, d, false, s.free[0], s.free[1])
  {
    var d, t := FrameOf(s.free[0]), FrameOf(s.free[1]);
    var s1 := s.(free := s.free[1..]);
    var s2 := s.(free := s.free[2..]);
    assert s1.free[1..] == s2.free;
    PopFree(s, {});
    FreeSetPop(s, {});
    PopFree(s1, {});
    FreeSetPop(s1, {});
    assert s1.free[0] == s.free[1];
    assert d != t;
    assert Empty(s.mem[d]) && Empty(s.mem[t]) && s.mem[d] == s.mem[t];
    FreshRoots(s, d, t);
    var r := Roots(s);
    forall k | 0 <= k < |r.free|
      ensures FrameOf(r.free[k]) != d && FrameOf(r.free[k]) != t && Empty(r.mem[FrameOf(r.free[k])])
    {
      assert r.free[k] == s.free[k + 2];
      assert FrameOf(r.free[k]) in FreeSet(s2);
    }
    forall f: FrameNo
      ensures Structural(r.mem, {d}, f) <==> f == d || f == t
    {
      StructureIsStructural(r.mem, d, f);
    }
    assert FreeSet(r) == FreeSet(s2);
  }

  lemma MapKeepsBooting(s: Phys, d: FrameNo, boot: set<PageNo>, pool: set<FrameNo>, q: PageNo, addr: Word)
    requires Booting(s, d, boot, pool) && q / 1024 != WINDOW && FrameOf(addr) == q && addr % 4096 == 0
    requires Slot(s.mem, d, q / 1024).Some? || s.free != []
    ensures Booting(MapPage(s, d, q, addr, COPY_FLAGS), d, boot + {q}, pool)
    ensures |MapPage(s, d, q, addr, COPY_FLAGS).free| == |s.free| - (if Slot(s.mem, d, q / 1024) == None then 1 else 0)
  {
    MapKeepsSystem(s, {d}, d, q, addr, COPY_FLAGS);
    MapKeepsClear(s, {d}, d, q, addr, COPY_FLAGS);
    MapStructure(s, d, q, addr, COPY_FLAGS);
    forall p: PageNo | p in boot && p / 1024 != WINDOW
      ensures Slot(s.mem, d, p / 1024).Some?
    {
      BootSlot(s, d, boot, pool, p);
    }
    MapKeepsEntries(s, d, boot, q, addr);
    forall i: Index | i != WINDOW && Slot(MapPage(s, d, q, addr, COPY_FLAGS).mem, d, i).Some?
      ensures Touched(boot + {q}, i)
    {
      if i != q / 1024 {
        var p :| p in boot && p / 1024 == i;
        assert p in boot + {q};
      }
    }
    forall p: PageNo | p / 1024 != WINDOW
      ensures Translate(MapPage(s, d, q, addr, COPY_FLAGS).mem, d, p) == if p in boot + {q} then Some(p) else None
    {
      MapTranslates(s, {d}, d, q, addr, COPY_FLAGS, p);
    }
  }

  /** The state init_paging leaves is a partition of the pool in which no page owns a frame yet. */
  lemma BootedPartition(s: Phys, d: FrameNo, boot: set<PageNo>, pool: set<FrameNo>)
    requires Booting(s, d, boot, pool)
    ensures Partition(s, d, boot, pool)
  {
    assert Owned(s.mem, d, boot) == {};
  }

  predicate Below(q: PageNo, n: nat) { q < n }

  /** The pages init_paging maps: the directory's own, and those of the first `n` frames. */
  ghost function BootPages(d: FrameNo, n: nat): (r: set<PageNo>)
    ensures forall q: PageNo :: q in r <==> q == d || q < n
  {
    {d} + set q: PageNo | 0 <= q < 0x10_0000 && Below(q, n)
  }

  lemma BootPagesNone(d: FrameNo)
    ensures {} + {d} == BootPages(d, 0)
  {
  }

  lemma BootPagesNext(d: FrameNo, n: nat)
    requires n < 0x10_0000
    ensures BootPages(d, n) + {n as PageNo} == BootPages(d, n + 1)
  {
  }

  /** The pages are visited in order. */
  lemma PageNumber(i: Index, j: Index)
    requires i != WINDOW
    ensures VAddrToPde(PageBase(i, j)) != WINDOW && PageBase(i, j) % 4096 == 0
    ensures PageOf(PageBase(i, j)) == 1024 * (i as int) + j < 1023 * 1024
  {
  }

  lemma LowPage(q: FrameNo)
    requires q < 1024
    ensures PageOf(FrameBase(q)) == q && PageOf(FrameBase(q)) / 1024 == 0
  {
    DivMod(q, 1024, 0, q);
  }

  class Machine {
    var mem: Memory
    var cr3: FrameNo
    var tlb: map<PageNo, FrameNo>
    var paging: bool            // paging_flag, set together with CR0.PG
    var currentDirectory: Word  // current_page_directory, a pointer
    var tableMappings: Word     // table_mappings, a pointer
    var kernelDirectory: Word   // kernel_page_directory, a pointer
    const pmm: FrameStack

    /** The processor before init_paging: paging off, nothing cached. */
    constructor (m: Memory, frames: FrameStack)
      ensures mem == m && pmm == frames && !paging && tlb == map[]
    {
      mem, pmm, paging, tlb := m, frames, false, map[];
      cr3, currentDirectory, tableMappings, kernelDirectory := 0, 0, 0, 0;
    }

    /** Between operations: the pointers lead where they should, both copies of the directory agree,
        and no cached translation is stale. */
    ghost predicate Usable()
      reads this, pmm
    {
      && pmm.Valid()
      && Pointers(mem, Dir(), paging, currentDirectory, tableMappings)
      && Spaces(mem, {Dir()})
      && (paging ==> Stale(tlb, mem, cr3) == {})
    }

    /** The directory in force. */
    ghost function Dir(): FrameNo
      reads this
    {
      DirOf(paging, cr3, currentDirectory)
    }

    ghost function Phys(): Phys
      reads this`mem, pmm, pmm.stack
      requires pmm.Valid()
    {
      PageTables.Phys(mem, pmm.Free())
    }

    /** Any access may evict cached translations and cache current ones. */
    method Refill()
      modifies this`tlb
      ensures Stale(tlb, mem, cr3) <= Stale(old(tlb), mem, cr3)
    {
      var keep: set<PageNo> := *;
      var fill: set<PageNo> := *;
      tlb := (map p | p in tlb && p in keep :: tlb[p]) +
             (map p | p in fill && Translate(mem, cr3, p).Some? :: Translate(mem, cr3, p).value);
    }

    /** An access of a program, or of the kernel between these operations: the processor sets its flags. */
    method Touch(a: Word, write: bool)
      requires paging && Translate(mem, cr3, PageOf(a)).Some?
      modifies this`mem, this`tlb
      ensures mem == Walked(old(mem), cr3, PageOf(a), write)
      ensures Stale(tlb, mem, cr3) <= Stale(old(tlb), old(mem), cr3)
    {
      WalkedSame(mem, cr3, PageOf(a), write);
      SameTranslations(mem, Walked(mem, cr3, PageOf(a), write));
      mem := Walked(mem, cr3, PageOf(a), write);
      Refill();
    }

    /** What the processor does with an address: a cached translation wins over the tables. */
    method Resolve(a: Word) returns (f: FrameNo)
      requires Accessible(mem, cr3, tlb, paging, a)
      ensures Some(f) == Physical(mem, cr3, paging, a)
    {
      if !paging {
        f := FrameOf(a);
      } else if PageOf(a) in tlb {
        f := tlb[PageOf(a)];
      } else {
        f := Translate(mem, cr3, PageOf(a)).value;
      }
    }

    method ReadWord(a: Word) returns (w: Word)
      requires Accessible(mem, cr3, tlb, paging, a)
      modifies this`tlb
      ensures w == mem[Physical(mem, cr3, paging, a).value][WordIn(a)]
      ensures Stale(tlb, mem, cr3) <= Stale(old(tlb), mem, cr3)
    {
      var f := Resolve(a);
      w := mem[f][WordIn(a)];
      Refill();
    }

    method WriteWord(a: Word, x: Word)
      requires Accessible(mem, cr3, tlb, paging, a)
      modifies this`mem, this`tlb
      ensures mem == Poke(old(mem), Physical(old(mem), cr3, paging, a).value, WordIn(a), x)
      ensures Stale(tlb, mem, cr3) <= Stale(old(tlb), old(mem), cr3) + Lost(old(mem), mem, cr3)
    {
      var f := Resolve(a);
      mem := Poke(mem, f, WordIn(a), x);
      Refill();
    }

    /** invlpg (Intel SDM Volume 3A, section 4.10.4). */
    method FlushTlb(a: Word)
      modifies this`tlb
      ensures Stale(tlb, mem, cr3) <= Stale(old(tlb), mem, cr3) - {PageOf(a)}
    {
      tlb := tlb - {PageOf(a)};
      Refill();
    }

    /** mov cr3: all cached translations go. */
    method LoadCr3(f: FrameNo)
      modifies this`cr3, this`tlb
      ensures cr3 == f && Stale(tlb, mem, cr3) == {}
    {
      cr3 := f;
      tlb := map[];
      Refill();
    }

    /** The page-table half of map: a frame is entered in both copies of the directory. */
    method NewTable(pde: Index, flags: Byte) returns (ok: bool)
      requires Usable() && FreeFrames(Phys(), {Dir()}) && flags % 2 == 1
      requires pde != WINDOW && Slot(mem, Dir(), pde) == None
      modifies this`mem, this`tlb, pmm`esp
      ensures Usable() && Dir() == old(Dir())
      ensures ok <==> old(pmm.Free()) != []
      ensures Phys() == if ok then AddTable(old(Phys()), Dir(), pde, PtEntry(old(pmm.Free())[0], flags))
        else old(Phys())
    {
      ghost var s, d := Phys(), Dir();
      var frame := pmm.Pop();
      if frame == None {
        return false;
      }
      var e := PtEntry(frame.value, flags);
      assert NamesFirstFree(s, e) by { EntryNamesFirstFree(s, {d}, flags); }
      ghost var m1 := Poke(mem, TablesOf(mem, d), pde, e);
      PointersNewTable(s, d, pde, e, paging, currentDirectory, tableMappings);
      PointersReach(mem, cr3, tlb, paging, currentDirectory, tableMappings, pde);
      WriteWord(At(tableMappings, pde), e);
      assert mem == m1;
      PointersReach(mem, cr3, tlb, paging, currentDirectory, tableMappings, pde);
      WriteWord(At(currentDirectory, pde), e);
      assert mem == Poke(m1, d, pde, e);
      assert Spaces(mem, {d}) by { AddTableKeepsSystem(s, {d}, d, pde, e); }
      if paging {
        FlushTlb(WindowAddress(pde, 0));
      }
      ok := true;
    }

    /** The leaf half of map: `k_pt[pte] = x` and the flush, with the directory entry read again. */
    method SetLeaf(pde: Index, pte: Index, x: Word, vAddr: Word)
      requires Usable() && FreeFrames(Phys(), {Dir()})
      requires Slot(mem, Dir(), pde).Some? && pde != WINDOW && PageOf(vAddr) == PageAt(pde, pte)
      modifies this`mem, this`tlb
      ensures Usable() <==> StaysPut(Dir(), paging, currentDirectory, PageOf(vAddr), x)
      ensures Spaces(mem, {Dir()}) && (paging ==> Stale(tlb, mem, cr3) == {})
      ensures mem == Poke(old(mem), FrameOf(old(mem)[Dir()][pde]), pte, x)
    {
      ghost var d := Dir();
      PokeLeafKeepsSystem(Phys(), {d}, d, pde, pte, x);
      PointersReach(mem, cr3, tlb, paging, currentDirectory, tableMappings, pde);
      var slot := ReadWord(At(currentDirectory, pde));
      assert Space(mem, d);
      TableReach(mem, cr3, tlb, paging, currentDirectory, tableMappings, pde, pte);
      PointersLeaf(mem, d, pde, pte, x, paging, currentDirectory, tableMappings);
      WriteWord(TablePointer(paging, slot, pde, pte), x);
      if paging {
        FlushTlb(vAddr);
      }
    }

    /** map: false is the panic (slot 1023, or out of memory), which leaves everything as it was. */
    method Map(pAddr: Word, vAddr: Word, flags: Byte) returns (ok: bool)
      requires Usable() && FreeFrames(Phys(), {Dir()}) && flags % 2 == 1
      modifies this`mem, this`tlb, pmm`esp
      ensures pmm.Valid() && Dir() == old(Dir()) && Spaces(mem, {Dir()}) && (paging ==> Stale(tlb, mem, cr3) == {})
      ensures Usable() <==> !ok || StaysPut(Dir(), paging, currentDirectory, PageOf(vAddr), PtEntry(pAddr, flags))
      ensures ok <==>
        VAddrToPde(vAddr) != WINDOW && (Slot(old(mem), Dir(), VAddrToPde(vAddr)).Some? || old(pmm.Free()) != [])
      ensures Phys() == if ok then MapPage(old(Phys()), Dir(), PageOf(vAddr), pAddr, flags) else old(Phys())
    {
      var pde, pte := VAddrToPde(vAddr), VAddrToPte(vAddr);
      if pde == WINDOW {
        return false;
      }
      PageSplit(vAddr);
      ghost var s, d := Phys(), Dir();
      PointersReach(mem, cr3, tlb, paging, currentDirectory, tableMappings, pde);
      var slot := ReadWord(At(currentDirectory, pde));
      if !Present(slot) {
        var mapped := NewTable(pde, flags);
        if !mapped {
          return false;
        }
        EntryNamesFirstFree(s, {d}, flags);
        AddTableKeepsSystem(s, {d}, d, pde, PtEntry(s.free[0], flags));
      }
      SetLeaf(pde, pte, PtEntry(pAddr, flags), vAddr);
      ok := true;
    }

    /** The directory entry and, if it is present, the entry of the table behind it. */
    method ReadEntry(pde: Index, pte: Index) returns (slot: Word, e: Word)
      requires Pointers(mem, Dir(), paging, currentDirectory, tableMappings)
      requires Slot(mem, Dir(), pde).Some? ==>
                 mem[Dir()][pde] % 4096 < 256 && Slot(mem, TablesOf(mem, Dir()), pde) == Slot(mem, Dir(), pde)
      requires paging ==> {PageOf(currentDirectory), PageAt(WINDOW, pde)} !! Stale(tlb, mem, cr3)
      modifies this`tlb
      ensures slot == mem[Dir()][pde] && e == if Present(slot) then mem[FrameOf(slot)][pte] else 0
      ensures Stale(tlb, mem, cr3) <= Stale(old(tlb), mem, cr3)
    {
      PointersReach(mem, cr3, tlb, paging, currentDirectory, tableMappings, pde);
      slot := ReadWord(At(currentDirectory, pde));
      e := 0;
      if Present(slot) {
        TableReach(mem, cr3, tlb, paging, currentDirectory, tableMappings, pde, pte);
        e := ReadWord(TablePointer(paging, slot, pde, pte));
      }
    }

    /** The scan of kpfree and kpfree_virtual over the table behind slot `pde`. */
    method TableIsEmpty(slot: Word, pde: Index) returns (empty: bool)
      requires Windowed(mem, Dir(), paging, tableMappings)
      requires slot == mem[Dir()][pde] && Present(slot) && slot % 4096 < 256
      requires Slot(mem, TablesOf(mem, Dir()), pde) == Slot(mem, Dir(), pde)
      requires paging ==> PageAt(WINDOW, pde) !in Stale(tlb, mem, cr3)
      modifies this`tlb
      ensures empty <==> Empty(mem[FrameOf(slot)])
      ensures Stale(tlb, mem, cr3) <= Stale(old(tlb), mem, cr3)
    {
      for i := 0 to 1024
        invariant forall k: Index :: k < i ==> mem[FrameOf(slot)][k] == 0
        invariant Stale(tlb, mem, cr3) <= Stale(old(tlb), mem, cr3)
      {
        TableReach(mem, cr3, tlb, paging, currentDirectory, tableMappings, pde, i);
        var e := ReadWord(TablePointer(paging, slot, pde, i));
        if e != 0 {
          return false;
        }
      }
      return true;
    }

    /** The scan and the release of kpfree and kpfree_virtual: an emptied table leaves the directory,
        and the recursive kpfree of its page in the window clears the other copy and frees its frame. */
    method DropIfEmpty(slot: Word, pde: Index)
      requires pmm.Valid() && Windowed(mem, Dir(), paging, tableMappings) && Spaces(mem, {Dir()})
      requires pde != WINDOW && slot == mem[Dir()][pde] && Present(slot)
      requires paging ==> {PageAt(WINDOW, WINDOW), PageAt(WINDOW, pde)} !! Stale(tlb, mem, cr3)
      requires Empty(mem[FrameOf(slot)]) ==>
        && pmm.esp > 0 && Pointers(mem, Dir(), paging, currentDirectory, tableMappings)
        && (paging ==> PageOf(currentDirectory) !in Stale(tlb, mem, cr3))
      modifies this`mem, this`tlb, pmm`esp, pmm.stack
      ensures pmm.Valid() && pmm.size == old(pmm.size)
      ensures Empty(old(mem)[FrameOf(slot)]) ==> Pointers(mem, Dir(), paging, currentDirectory, tableMappings)
      ensures Phys() == if Empty(old(mem)[FrameOf(slot)]) then DropTable(old(Phys()), Dir(), pde) else old(Phys())
      ensures paging ==> Stale(tlb, mem, cr3) <= Stale(old(tlb), old(mem), cr3)
      decreases 2
    {
      ghost var s, d := Phys(), Dir();
      assert Space(mem, d);
      var empty := TableIsEmpty(slot, pde);
      if empty {
        PointersDropTable(mem, d, pde, paging, currentDirectory, tableMappings);
        PointersReach(mem, cr3, tlb, paging, currentDirectory, tableMappings, pde);
        WriteWord(At(currentDirectory, pde), 0);
        assert mem == Poke(s.mem, d, pde, 0);
        PageSplit(WindowAddress(pde, 0));
        Kpfree(WindowAddress(pde, 0));
      }
    }

    /** What kpfree and kpfree_virtual share for an ordinary page: `k_pt[pte] = 0`, then the release of
        the table if that was its last entry. */
    method ClearLeaf(slot: Word, pde: Index, pte: Index)
      requires Usable() && pde != WINDOW && slot == mem[Dir()][pde] && Translate(mem, Dir(), PageAt(pde, pte)).Some?
      requires PointerLasts(mem, Dir(), paging, currentDirectory, PageAt(pde, pte))
      requires |UnmapPage(Phys(), Dir(), PageAt(pde, pte)).free| <= pmm.size
      modifies this`mem, this`tlb, pmm`esp, pmm.stack
      ensures pmm.Valid() && pmm.size == old(pmm.size)
      ensures Pointers(mem, Dir(), paging, currentDirectory, tableMappings) <==>
        StaysPut(Dir(), paging, currentDirectory, PageAt(pde, pte), 0)
      ensures Windowed(mem, Dir(), paging, tableMappings)
      ensures Spaces(mem, {Dir()}) && Phys() == UnmapPage(old(Phys()), Dir(), PageAt(pde, pte))
      ensures paging ==> Stale(tlb, mem, cr3) <= {PageAt(pde, pte)}
      decreases 3
    {
      ghost var s, d := Phys(), Dir();
      assert Space(mem, d);
      UnmapKeepsSelfMap(s, d, PageAt(pde, pte));
      TableReach(mem, cr3, tlb, paging, currentDirectory, tableMappings, pde, pte);
      PointersLeaf(mem, d, pde, pte, 0, paging, currentDirectory, tableMappings);
      WriteWord(TablePointer(paging, slot, pde, pte), 0);
      PokeLeafKeepsSystem(PageTables.Phys(s.mem, []), {d}, d, pde, pte, 0);
      DropIfEmpty(slot, pde);
    }

    /** The same in slot 1023, where nothing is released. */
    method ClearWindowLeaf(slot: Word, pte: Index)
      requires pmm.Valid() && Pointers(mem, Dir(), paging, currentDirectory, tableMappings)
      requires slot == mem[Dir()][WINDOW] && slot % 4096 < 256 && pte != WINDOW
      requires paging ==>
        {PageOf(currentDirectory), PageAt(WINDOW, WINDOW)} !! Stale(tlb, mem, cr3) + {PageAt(WINDOW, pte)}
      modifies this`mem, this`tlb
      ensures Pointers(mem, Dir(), paging, currentDirectory, tableMappings)
      ensures mem == Poke(old(mem), TablesOf(old(mem), Dir()), pte, 0)
      ensures paging ==> Stale(tlb, mem, cr3) <= Stale(old(tlb), old(mem), cr3) + {PageAt(WINDOW, pte)}
    {
      PointersLeaf(mem, Dir(), WINDOW, pte, 0, paging, currentDirectory, tableMappings);
      TableReach(mem, cr3, tlb, paging, currentDirectory, tableMappings, WINDOW, pte);
      WriteWord(TablePointer(paging, slot, WINDOW, pte), 0);
    }

    /** What kpfree does to a leaf that is present. */
    method FreeLeaf(slot: Word, pde: Index, pte: Index, e: Word)
      requires pmm.Valid() && Pointers(mem, Dir(), paging, currentDirectory, tableMappings)
      requires slot == mem[Dir()][pde] && slot % 4096 < 256 && Present(slot) && Present(e)
      requires e == mem[FrameOf(slot)][pte]
      requires paging ==> {PageOf(currentDirectory), PageAt(WINDOW, WINDOW)} !! Stale(tlb, mem, cr3)
      requires pde == WINDOW ==>
        pmm.esp > 0 && pte != WINDOW && StaysPut(Dir(), paging, currentDirectory, PageAt(pde, pte), 0)
      requires pde != WINDOW ==>
        && Usable() && |FreePage(Phys(), Dir(), PageAt(pde, pte)).free| <= pmm.size
        && PointerLasts(mem, Dir(), paging, currentDirectory, PageAt(pde, pte))
      modifies this`mem, this`tlb, pmm`esp, pmm.stack
      ensures pmm.Valid() && pmm.size == old(pmm.size) && Windowed(mem, Dir(), paging, tableMappings)
      ensures Pointers(mem, Dir(), paging, currentDirectory, tableMappings) <==>
        StaysPut(Dir(), paging, currentDirectory, PageAt(pde, pte), 0)
      ensures pde == WINDOW ==>
                var t, s := TablesOf(old(mem), Dir()), old(Phys());
                Phys() == PageTables.Phys(Poke(s.mem, t, pte, 0), [Address(e)] + s.free)
      ensures pde != WINDOW ==> Spaces(mem, {Dir()}) && Phys() == FreePage(old(Phys()), Dir(), PageAt(pde, pte))
      ensures paging ==> Stale(tlb, mem, cr3) <= Stale(old(tlb), old(mem), cr3) + {PageAt(pde, pte)}
      decreases if pde == WINDOW then 0 else 4
    {
      if pde != WINDOW {
        ClearLeaf(slot, pde, pte);
      } else {
        ClearWindowLeaf(slot, pte);
      }
      pmm.Push(Address(e));
    }

    /** kpfree. Freeing a page of slot 1023 is what it does to itself when a table has emptied. */
    method Kpfree(vAddr: Word)
      requires pmm.Valid() && Pointers(mem, Dir(), paging, currentDirectory, tableMappings)
      requires paging ==> {PageOf(currentDirectory), PageAt(WINDOW, WINDOW)} !! Stale(tlb, mem, cr3)
      requires mem[Dir()][WINDOW] % 4096 < 256
      requires VAddrToPde(vAddr) == WINDOW ==>
        && pmm.esp > 0 && VAddrToPte(vAddr) != WINDOW
        && StaysPut(Dir(), paging, currentDirectory, PageOf(vAddr), 0)
        && (paging ==> PageOf(vAddr) !in Stale(tlb, mem, cr3))
      requires VAddrToPde(vAddr) != WINDOW ==>
        && Usable() && |FreePage(Phys(), Dir(), PageOf(vAddr)).free| <= pmm.size
        && PointerLasts(mem, Dir(), paging, currentDirectory, PageOf(vAddr))
      modifies this`mem, this`tlb, pmm`esp, pmm.stack
      ensures pmm.Valid() && pmm.size == old(pmm.size)
      ensures VAddrToPde(vAddr) == WINDOW ==> Pointers(mem, Dir(), paging, currentDirectory, tableMappings)
      ensures VAddrToPde(vAddr) == WINDOW ==>
                var t, k, s := TablesOf(old(mem), Dir()), VAddrToPte(vAddr), old(Phys());
                Phys() == if Present(s.mem[t][k])
                  then PageTables.Phys(Poke(s.mem, t, k, 0), [Address(s.mem[t][k])] + s.free) else s
      ensures VAddrToPde(vAddr) != WINDOW ==> Phys() == FreePage(old(Phys()), Dir(), PageOf(vAddr))
      ensures VAddrToPde(vAddr) != WINDOW ==>
        (Usable() <==> StaysPut(Dir(), paging, currentDirectory, PageOf(vAddr), 0))
      ensures paging ==> Stale(tlb, mem, cr3) <= Stale(old(tlb), old(mem), cr3)
      ensures paging && Slot(old(mem), Dir(), VAddrToPde(vAddr)).Some? ==> PageOf(vAddr) !in Stale(tlb, mem, cr3)
      decreases if VAddrToPde(vAddr) == WINDOW then 1 else 5
    {
      var pde, pte := VAddrToPde(vAddr), VAddrToPte(vAddr);
      PageSplit(vAddr);
      assert pde != WINDOW ==> Space(mem, Dir());
      var slot, e := ReadEntry(pde, pte);
      if !Present(slot) {
        return;
      }
      if Present(e) {
        FreeLeaf(slot, pde, pte, e);
      }
      if paging {
        FlushTlb(vAddr);
      }
    }

    /** kpfree_virtual: the mapping goes, the frame stays taken. */
    method KpfreeVirtual(vAddr: Word)
      requires Usable() && VAddrToPde(vAddr) != WINDOW
      requires PointerLasts(mem, Dir(), paging, currentDirectory, PageOf(vAddr))
      requires |UnmapPage(Phys(), Dir(), PageOf(vAddr)).free| <= pmm.size
      modifies this`mem, this`tlb, pmm`esp, pmm.stack
      ensures pmm.Valid() && pmm.size == old(pmm.size) && (paging ==> Stale(tlb, mem, cr3) == {})
      ensures Usable() <==> StaysPut(Dir(), paging, currentDirectory, PageOf(vAddr), 0)
      ensures Phys() == UnmapPage(old(Phys()), Dir(), PageOf(vAddr))
    {
      var pde, pte := VAddrToPde(vAddr), VAddrToPte(vAddr);
      PageSplit(vAddr);
      assert Space(mem, Dir());
      var slot, e := ReadEntry(pde, pte);
      if !Present(slot) {
        return;
      }
      if Present(e) {
        ClearLeaf(slot, pde, pte);
      }
      if paging {
        FlushTlb(vAddr);
      }
    }

    /** virtual2physical: the directory through its pointer, the table through the window. */
    method Virtual2Physical(vAddr: Word) returns (r: Word)
      requires Accessible(mem, cr3, tlb, paging, currentDirectory) && currentDirectory % 4096 == 0
      requires paging ==> SelfMapped(mem, cr3) && Stale(tlb, mem, cr3) == {}
      requires var n := Physical(mem, cr3, paging, currentDirectory).value;
               Slot(mem, n, VAddrToPde(vAddr)).Some? ==>
                 if paging then Slot(mem, cr3, VAddrToPde(vAddr)).Some? else mem[n][VAddrToPde(vAddr)] % 4096 < 256
      modifies this`tlb
      ensures paging ==> Stale(tlb, mem, cr3) == {}
      ensures var n := Physical(mem, cr3, paging, currentDirectory).value;
              r == if Slot(mem, n, VAddrToPde(vAddr)) == None then 0
                   else PhysicalAddress(mem, if paging then cr3 else n, PageOf(vAddr))
    {
      var pde, pte := VAddrToPde(vAddr), VAddrToPte(vAddr);
      PageSplit(vAddr);
      ghost var n := Physical(mem, cr3, paging, currentDirectory).value;
      var slot := ReadWord(At(currentDirectory, pde));
      if !Present(slot) {
        return 0;
      }
      WalkReach(mem, cr3, tlb, paging, n, PageOf(vAddr));
      var e := ReadWord(TablePointer(paging, slot, pde, pte));
      r := if Present(e) then Address(e) else 0;
    }

    /** set_page_directory; a null pointer is refused with a warning. */
    method SetPageDirectory(pdir: Word, phys: bool)
      requires pdir % 4096 == 0
      requires phys || pdir == 0 || (paging && Usable() && Home(mem, cr3, pdir).Some?)
      modifies this`currentDirectory, this`cr3, this`tlb
      ensures pdir == 0 ==> currentDirectory == old(currentDirectory) && cr3 == old(cr3) && tlb == old(tlb)
      ensures pdir != 0 ==> currentDirectory == pdir && Stale(tlb, mem, cr3) == {}
      ensures pdir != 0 ==> cr3 == if phys then FrameOf(pdir) else Target(mem, old(cr3), pdir)
    {
      if pdir == 0 {
        return;
      }
      currentDirectory := pdir;
      if phys {
        LoadCr3(FrameOf(pdir));
      } else {
        PageSplit(pdir);
        assert Space(mem, cr3);
        var base := Virtual2Physical(pdir);
        if base != 0 {
          FrameOfAddress(Leaf(mem, cr3, PageOf(pdir)));
        }
        LoadCr3(FrameOf(base));
      }
    }

    /** The space of directory `d` is in force, by way of the pointer `pdir`. */
    ghost predicate Running(d: FrameNo, pdir: Word)
      reads this, pmm
    {
      && pmm.Valid() && paging && cr3 == d && currentDirectory == pdir && tableMappings == 0xFFFF_F000
      && Stale(tlb, mem, cr3) == {}
    }

    method Switch(ghost ds: set<FrameNo>, ghost d: FrameNo, pdir: Word, ghost from: Word)
      requires Running(cr3, from) && InSpace(Phys(), ds, cr3, from) && d in ds
      requires KernelPage(mem, cr3, pdir, d) && KernelPage(mem, d, pdir, d)
      modifies this`currentDirectory, this`cr3, this`tlb
      ensures Running(d, pdir)
    {
      EnterSpace(Phys(), ds, cr3, from);
      KernelPageSlot(mem, ds, d, pdir, d);
      SetPageDirectory(pdir, false);
    }

    /** kmpalloc with a frame and no flags of its own, in a space that is running; `r` is the outcome. */
    method Kmpalloc(ghost ds: set<FrameNo>, ghost d: FrameNo, pdir: Word, vAddr: Word, frame: Word,
            ghost r: Option<Phys>) returns (ok: bool)
      requires Running(d, pdir) && InSpace(Phys(), ds, d, pdir)
      requires VAddrToPde(vAddr) != WINDOW && PageOf(vAddr) != PageOf(pdir)
      requires r == if Slot(mem, d, VAddrToPde(vAddr)) == None && pmm.Free() == [] then None
                    else Some(MapPage(Phys(), d, PageOf(vAddr), if frame != 0 then frame else vAddr, COPY_FLAGS))
      modifies this`mem, this`tlb, pmm`esp
      ensures Running(d, pdir) && r == (if ok then Some(Phys()) else None)
    {
      assert Usable() && FreeFrames(Phys(), {Dir()}) by { EnterSpace(Phys(), ds, d, pdir); }
      assert PageOf(vAddr) / 1024 == VAddrToPde(vAddr) by { PageSplit(vAddr); }
      var target := if frame != 0 then frame else vAddr;
      ok := Map(target, vAddr, COPY_FLAGS);
    }

    /** A page of the source space is mapped in the new one. */
    method CopyMapped(ghost ds: set<FrameNo>, ghost src: FrameNo, srcDir: Word, ghost n: FrameNo, newDir: Word,
            addr: Word, frame: Word) returns (ok: bool)
      requires Running(src, srcDir) && Bridge(Phys(), ds, src, srcDir, n, newDir) && VAddrToPde(addr) != WINDOW
      requires AddressSpaces.Copied(PageOf(addr)) && frame == PhysicalAddress(mem, src, PageOf(addr)) != 0
      modifies this`mem, this`tlb, this`cr3, this`currentDirectory, pmm`esp
      ensures Running(n, newDir)
      ensures CopyPage(old(Phys()), src, n, PageOf(addr)) == if ok then Some(Phys()) else None
    {
      ghost var s, p := Phys(), PageOf(addr);
      PageSplit(addr);
      CopyPageMaps(s, src, n, p);
      Switch(ds, n, newDir, srcDir);
      ok := Kmpalloc(ds, n, newDir, addr, frame, CopyPage(s, src, n, p));
    }

    /** The body of copy_page_directory's loop. */
    method CopyOne(ghost ds: set<FrameNo>, ghost src: FrameNo, srcDir: Word, ghost n: FrameNo, newDir: Word,
            addr: Word) returns (ok: bool)
      requires Running(src, srcDir) && Bridge(Phys(), ds, src, srcDir, n, newDir)
      requires VAddrToPde(addr) != WINDOW && addr % 4096 == 0
      modifies this`mem, this`tlb, this`cr3, this`currentDirectory, pmm`esp
      ensures ok ==> Running(src, srcDir)
      ensures CopyPage(old(Phys()), src, n, PageOf(addr)) == if ok then Some(Phys()) else None
    {
      if addr < 0x8000_0000 || addr > 0xF000_0000 {
        return true;
      }
      ghost var s := Phys();
      var frame := Lookup(ds, src, srcDir, addr);
      ok := true;
      if frame != 0 {
        ok := CopyMapped(ds, src, srcDir, n, newDir, addr, frame);
        if ok {
          PageSplit(addr);
          CopyPageKeepsBridge(s, ds, src, srcDir, n, newDir, PageOf(addr));
          Switch(ds, src, srcDir, newDir);
        }
      }
    }

    /** virtual2physical in a space that is running. */
    method Lookup(ghost ds: set<FrameNo>, ghost d: FrameNo, pdir: Word, vAddr: Word) returns (r: Word)
      requires Running(d, pdir) && InSpace(Phys(), ds, d, pdir)
      modifies this`tlb
      ensures Running(d, pdir) && r == PhysicalAddress(mem, d, PageOf(vAddr))
    {
      EnterSpace(Phys(), ds, d, pdir);
      assert Space(mem, d);
      PageSplit(vAddr);
      r := Virtual2Physical(vAddr);
    }

    /** memcpy of one page, word by word, into a frame outside the space in force. */
    method CopyFrame(dst: Word, source: Word)
      requires paging && Stale(tlb, mem, cr3) == {} && dst % 4096 == 0 && source % 4096 == 0
      requires Home(mem, cr3, dst).Some? && Home(mem, cr3, source).Some? && Outside(mem, cr3, Home(mem, cr3, dst).value)
      requires Home(mem, cr3, dst) != Home(mem, cr3, source)
      modifies this`mem, this`tlb
      ensures Stale(tlb, mem, cr3) == {}
      ensures mem == old(mem)[Home(old(mem), cr3, dst).value := old(mem)[Home(old(mem), cr3, source).value]]
    {
      ghost var m, to, from := mem, Home(mem, cr3, dst).value, Home(mem, cr3, source).value;
      for i := 0 to 1024
        invariant mem == m[to := mem[to]] && mem[to][..i] == m[from][..i]
        invariant Stale(tlb, mem, cr3) == {}
      {
        PokeOutside(m, cr3, to, mem[to]);
        var w := ReadWord(At(source, i));
        assert w == m[from][i];
        PokeOutside(mem, cr3, to, mem[to][i := w]);
        WriteWord(At(dst, i), w);
      }
      assert mem[to] == mem[to][..1024] == m[from][..1024] == m[from];
    }

    /** memcpy of a page into a frame that holds no directory and no table. */
    method CopySpare(ghost ds: set<FrameNo>, ghost d: FrameNo, ghost pdir: Word, dst: Word, source: Word,
            ghost f: FrameNo, ghost g: FrameNo)
      requires Running(d, pdir) && InSpace(Phys(), ds, d, pdir) && !Structural(mem, ds, f) && f != g
      requires dst % 4096 == 0 && source % 4096 == 0
      requires Home(mem, d, dst) == Some(f) && Home(mem, d, source) == Some(g)
      modifies this`mem, this`tlb
      ensures Running(d, pdir) && mem == old(mem)[f := old(mem)[g]]
    {
      SpareKeepsSpace(Phys(), ds, d, pdir, f, mem[g]);
      CopyFrame(dst, source);
    }

    /** `p[k] = x` in such a frame. */
    method WriteSpareWord(ghost ds: set<FrameNo>, ghost d: FrameNo, ghost pdir: Word, v: Word, k: Index, x: Word,
            ghost f: FrameNo)
      requires Running(d, pdir) && InSpace(Phys(), ds, d, pdir) && !Structural(mem, ds, f)
      requires v % 4096 == 0 && Home(mem, d, v) == Some(f)
      modifies this`mem, this`tlb
      ensures Running(d, pdir) && mem == Poke(old(mem), f, k, x)
    {
      SpareKeepsSpace(Phys(), ds, d, pdir, f, mem[f][k := x]);
      PokeOutside(mem, cr3, f, mem[f][k := x]);
      WriteWord(At(v, k), x);
    }

    /** A page of a new root: the kernel's page `g` is copied to frame `f`, and its slot 1023 set. */
    method CopyRoot(ghost ds: set<FrameNo>, ghost d: FrameNo, pdir: Word, dst: Word, source: Word, ptMap: Word,
            ghost f: FrameNo, ghost g: FrameNo, ghost w: FrameNo)
      requires Running(d, pdir) && InSpace(Phys(), ds, d, pdir) && !Structural(mem, ds, f) && f != g
      requires dst % 4096 == 0 && source % 4096 == 0
      requires Home(mem, d, dst) == Some(f) && Home(mem, d, source) == Some(g)
      requires PhysicalAddress(mem, d, PageOf(ptMap)) == 4096 * (w as int)
      modifies this`mem, this`tlb
      ensures Running(d, pdir) && mem == old(mem)[f := old(mem)[g][WINDOW := WindowEntry(w)]]
    {
      ghost var s := Phys();
      SpareKeepsSpace(s, ds, d, pdir, f, mem[g]);
      CopySpare(ds, d, pdir, dst, source, f, g);
      var base := Lookup(ds, d, pdir, ptMap);
      WriteSpareWord(ds, d, pdir, dst, WINDOW, PtEntry(base, PAGE_PRESENT + PAGE_RW), f);
      PokeCopied(s.mem, f, g, WINDOW, PtEntry(base, PAGE_PRESENT + PAGE_RW));
    }

    /** The directory half: the kernel's directory is copied, and the kernel's space entered. */
    method CopyDirectoryRoot(newDir: Word, ptMap: Word, ghost ds: set<FrameNo>, ghost kernel: FrameNo, ghost n: FrameNo,
            ghost w: FrameNo)
      requires Running(cr3, currentDirectory) && InSpace(Phys(), ds, cr3, currentDirectory) && kernel in ds
      requires KernelWide(mem, ds, kernelDirectory, kernel) && KernelWide(mem, ds, newDir, n) && !Structural(mem, ds, n)
      requires PhysicalAddress(mem, cr3, PageOf(ptMap)) == 4096 * (w as int)
      modifies this`mem, this`tlb, this`cr3, this`currentDirectory
      ensures mem == old(mem)[n := old(mem)[kernel][WINDOW := WindowEntry(w)]] && Running(kernel, kernelDirectory)
    {
      ghost var s, d := Phys(), cr3;
      assert KernelPage(mem, d, newDir, n) && KernelPage(mem, d, kernelDirectory, kernel);
      CopyRoot(ds, cr3, currentDirectory, newDir, kernelDirectory, ptMap, n, kernel, w);
      SpareThenSwitch(s, ds, d, currentDirectory, n, mem[n], kernelDirectory, kernel);
      Switch(ds, kernel, kernelDirectory, currentDirectory);
    }

    /** The other half: in the kernel's space the window table is copied, and the source entered. */
    method CopyWindowRoot(srcDir: Word, ptMap: Word, ghost ds: set<FrameNo>, ghost kernel: FrameNo, ghost src: FrameNo,
            ghost w: FrameNo)
      requires Running(kernel, kernelDirectory) && InSpace(Phys(), ds, kernel, kernelDirectory) && src in ds
      requires KernelWide(mem, ds, srcDir, src) && KernelWide(mem, ds, ptMap, w) && !Structural(mem, ds, w)
      requires PhysicalAddress(mem, kernel, PageOf(ptMap)) == 4096 * (w as int)
      modifies this`mem, this`tlb, this`cr3, this`currentDirectory
      ensures mem == old(mem)[w := old(mem)[TablesOf(old(mem), kernel)][WINDOW := WindowEntry(w)]]
      ensures Running(src, srcDir)
    {
      ghost var s, g := Phys(), TablesOf(mem, kernel);
      assert KernelPage(mem, kernel, ptMap, w);
      SelfWindow(mem, ds, kernel, w);
      CopyRoot(ds, kernel, kernelDirectory, ptMap, 0xFFFF_F000, ptMap, w, g, w);
      SpareThenSwitch(s, ds, kernel, kernelDirectory, w, mem[w], srcDir, src);
      Switch(ds, src, srcDir, kernelDirectory);
    }

    /** copy_page_directory up to its loop: the roots of the new space stand, the source is in force. */
    method CopyRoots(srcDir: Word, newDir: Word, ptMap: Word,
                     ghost ds: set<FrameNo>, ghost kernel: FrameNo, ghost src: FrameNo, ghost n: FrameNo,
                       ghost w: FrameNo)
      requires Running(cr3, currentDirectory) && InSpace(Phys(), ds, cr3, currentDirectory)
      requires kernel in ds && src in ds && Spare(Phys(), ds, n, w)
      requires KernelWide(mem, ds, kernelDirectory, kernel) && KernelWide(mem, ds, srcDir, src)
      requires KernelWide(mem, ds, newDir, n) && KernelWide(mem, ds, ptMap, w)
      requires forall d | d in ds :: PhysicalAddress(mem, d, PageOf(ptMap)) == 4096 * (w as int)
      modifies this`mem, this`tlb, this`cr3, this`currentDirectory
      ensures Running(src, srcDir) && Phys() == old(Phys()).(mem := NewSpace(old(mem), kernel, n, w))
      ensures Bridge(Phys(), ds + {n}, src, srcDir, n, newDir)
    {
      BridgeOfNew(Phys(), ds, kernel, src, srcDir, n, w, newDir);
      DirectoryRootWritten(Phys(), ds, kernel, kernelDirectory, src, srcDir, n, w, ptMap);
      CopyDirectoryRoot(newDir, ptMap, ds, kernel, n, w);
      CopyWindowRoot(srcDir, ptMap, ds, kernel, src, w);
    }

    /** The inner loop. */
    method CopySlot(ghost ds: set<FrameNo>, ghost src: FrameNo, srcDir: Word, ghost n: FrameNo, newDir: Word,
            ghost s: Phys, i: Index, ghost k: nat)
      returns (ok: bool, ghost k': nat)
      requires Running(src, srcDir) && Bridge(s, ds, src, srcDir, n, newDir)
      requires i != WINDOW && k == 1024 * i && CopyPages(s, src, n, k) == Some(Phys())
      modifies this`mem, this`tlb, this`cr3, this`currentDirectory, pmm`esp
      ensures ok ==> k' == k + 1024 && Running(src, srcDir)
      ensures k' <= 1023 * 1024 && CopyPages(s, src, n, k') == if ok then Some(Phys()) else None
    {
      k' := k;
      for j := 0 to 1024
        invariant Running(src, srcDir) && k' == k + j <= 1023 * 1024 && CopyPages(s, src, n, k') == Some(Phys())
      {
        PageNumber(i, j);
        CopyKeepsBridge(s, ds, src, srcDir, n, newDir, k');
        CopyPagesNext(s, src, n, k');
        ok := CopyOne(ds, src, srcDir, n, newDir, PageBase(i, j));
        k' := k' + 1;
        if !ok {
          return;
        }
      }
      ok := true;
    }

    /** copy_page_directory, with the two pages kvalloc has handed out as arguments: `newDir` in frame
        `n`, `ptMap` in frame `w`. False is the out-of-memory panic of a map in the loop. */
    method CopyPageDirectory(srcDir: Word, newDir: Word, ptMap: Word,
                             ghost ds: set<FrameNo>, ghost kernel: FrameNo, ghost src: FrameNo, ghost n: FrameNo,
                               ghost w: FrameNo)
      returns (ok: bool)
      requires Running(cr3, currentDirectory) && InSpace(Phys(), ds, cr3, currentDirectory)
      requires kernel in ds && src in ds && Spare(Phys(), ds, n, w)
      requires KernelWide(mem, ds, kernelDirectory, kernel) && KernelWide(mem, ds, srcDir, src)
      requires KernelWide(mem, ds, newDir, n) && KernelWide(mem, ds, ptMap, w)
      requires forall d | d in ds :: PhysicalAddress(mem, d, PageOf(ptMap)) == 4096 * (w as int)
      modifies this`mem, this`tlb, this`cr3, this`currentDirectory, pmm`esp
      ensures ok ==> Running(src, srcDir) && InSpace(Phys(), ds + {n}, src, srcDir)
      ensures ok ==> KernelMemoryKept(old(mem), mem, ds, ds + {n})
      ensures CopySpace(old(Phys()), kernel, src, n, w) == if ok then Some(Phys()) else None
      ensures ok && FreeClear(old(Phys())) ==> forall q: PageNo | q / 1024 != 1023 ::
        Translate(mem, n, q) ==
          if 0x8000_0000 <= 4096 * (q as int) <= 0xF000_0000 && PhysicalAddress(old(mem), src, q) != 0
          then Translate(old(mem), src, q) else Translate(old(mem), kernel, q)
    {
      ghost var s := Phys();
      CopyKeepsKernelMemory(Phys(), ds, kernel, src, n, w);
      CopyRoots(srcDir, newDir, ptMap, ds, kernel, src, n, w);
      ok := CopyMappings(ds + {n}, src, srcDir, n, newDir);
      if ok && FreeClear(s) {
        forall q: PageNo | q / 1024 != 1023
          ensures Translate(mem, n, q) ==
                  if 0x8000_0000 <= 4096 * (q as int) <= 0xF000_0000 && PhysicalAddress(s.mem, src, q) != 0
                  then Translate(s.mem, src, q) else Translate(s.mem, kernel, q)
        {
          CopySpaceCorrect(s, ds, kernel, src, n, w, q);
        }
      }
    }

    /** The outer loop. */
    method CopyMappings(ghost ds: set<FrameNo>, ghost src: FrameNo, srcDir: Word, ghost n: FrameNo,
            newDir: Word) returns (ok: bool)
      requires Running(src, srcDir) && Bridge(Phys(), ds, src, srcDir, n, newDir)
      modifies this`mem, this`tlb, this`cr3, this`currentDirectory, pmm`esp
      ensures ok ==> Running(src, srcDir) && InSpace(Phys(), ds, src, srcDir)
      ensures CopyPages(old(Phys()), src, n, 1023 * 1024) == if ok then Some(Phys()) else None
    {
      ghost var s := Phys();
      ghost var k := 0;
      for i := 0 to 1023
        invariant Running(src, srcDir) && k == 1024 * i && CopyPages(s, src, n, k) == Some(Phys())
      {
        ok, k := CopySlot(ds, src, srcDir, n, newDir, s, i, k);
        if !ok {
          CopyPagesStop(s, src, n, k, 1023 * 1024);
          return;
        }
      }
      CopyKeepsBridge(s, ds, src, srcDir, n, newDir, 1023 * 1024);
      ok := true;
    }

    /** knpalloc: a frame for a page, by way of kmpalloc. */
    method Knpalloc(vAddr: Word) returns (ok: bool)
      requires Usable() && FreeFrames(Phys(), {Dir()}) && VAddrToPde(vAddr) != WINDOW
      modifies this`mem, this`tlb, pmm`esp
      ensures ok ==> pmm.Valid() && Dir() == old(Dir()) && AllocPage(old(Phys()), Dir(), vAddr) == Some(Phys())
      ensures ok ==> old(pmm.Free()) != [] && (paging ==> Stale(tlb, mem, cr3) == {})
      ensures ok ==> (Usable() <==> var f := old(pmm.Free())[0];
                        StaysPut(Dir(), paging, currentDirectory, PageOf(vAddr),
                          PtEntry(if f != 0 then f else vAddr, COPY_FLAGS)))
      ensures !ok ==> AllocPage(old(Phys()), old(Dir()), vAddr) == None
    {
      ghost var s, d := Phys(), Dir();
      PageSplit(vAddr);
      var frame := pmm.Pop();
      if frame == None {
        return false;
      }
      PopFree(s, {d});
      ok := Map(if frame.value != 0 then frame.value else vAddr, vAddr, COPY_FLAGS);
    }

    /** init_paging's roots: both frames come clear from the pool. */
    method InitRoots() returns (ok: bool)
      requires !paging && pmm.Valid() && FreeFrames(Phys(), {}) && FreeClear(Phys())
      modifies this`mem, this`tlb, this`kernelDirectory, this`tableMappings, this`currentDirectory, pmm`esp
      ensures ok <==> |old(pmm.Free())| >= 2
      ensures ok ==> Usable() && kernelDirectory == currentDirectory == old(pmm.Free())[0]
      ensures ok ==> Booting(Phys(), Dir(), {}, FreeSet(old(Phys()))) && pmm.Free() == old(pmm.Free())[2..]
    {
      ghost var s := Phys();
      var first := pmm.Pop();
      if first == None {
        return false;
      }
      kernelDirectory := first.value;
      var second := pmm.Pop();
      if second == None {
        return false;
      }
      tableMappings := second.value;
      currentDirectory := kernelDirectory;
      RootsBoot(s);
      WriteWord(At(kernelDirectory, WINDOW), PtEntry(tableMappings, PAGE_PRESENT + PAGE_RW));
      WriteWord(At(tableMappings, WINDOW), PtEntry(tableMappings, PAGE_PRESENT + PAGE_RW));
      assert Phys() == Roots(s);
      ok := true;
    }

    /** kmpalloc(addr, 0, 0) while paging is off: the page is mapped to the frame of the same number. */
    method MapIdentity(addr: Word, ghost d: FrameNo, ghost boot: set<PageNo>,
            ghost pool: set<FrameNo>) returns (ok: bool)
      requires !paging && Usable() && Dir() == d && Booting(Phys(), d, boot, pool) && addr % 4096 == 0
      modifies this`mem, this`tlb, pmm`esp
      ensures ok <==> PageOf(addr) / 1024 != WINDOW
                      && (Slot(old(mem), d, PageOf(addr) / 1024).Some? || old(pmm.Free()) != [])
      ensures ok ==> Usable() && Booting(Phys(), d, boot + {PageOf(addr)}, pool)
      ensures ok ==>
        |pmm.Free()| == |old(pmm.Free())| - (if Slot(old(mem), d, PageOf(addr) / 1024) == None then 1 else 0)
    {
      ghost var s := Phys();
      PageSplit(addr);
      ok := Map(addr, addr, COPY_FLAGS);
      if ok {
        MapKeepsBooting(s, d, boot, pool, PageOf(addr), addr);
      }
    }

    /** The loop of init_paging over the first four megabytes. */
    method MapLow(ghost d: FrameNo, ghost pool: set<FrameNo>) returns (ok: bool)
      requires !paging && Usable() && Dir() == d && Booting(Phys(), d, BootPages(d, 0), pool)
      modifies this`mem, this`tlb, pmm`esp
      ensures ok <==> Slot(old(mem), d, 0).Some? || old(pmm.Free()) != []
      ensures ok ==> Usable() && Booting(Phys(), d, BootPages(d, 1024), pool)
    {
      for q: int := 0 to 1024
        invariant Usable() && Booting(Phys(), d, BootPages(d, q), pool)
        invariant q == 0 ==> mem == old(mem) && pmm.Free() == old(pmm.Free())
        invariant q > 0 ==> Slot(old(mem), d, 0).Some? || old(pmm.Free()) != []
      {
        ok := MapLowPage(q, d, pool);
        if !ok {
          return;
        }
      }
      ok := true;
    }

    /** One turn; the page before it has the table for the pages after it. */
    method MapLowPage(q: FrameNo, ghost d: FrameNo, ghost pool: set<FrameNo>) returns (ok: bool)
      requires q < 1024
      requires !paging && Usable() && Dir() == d && Booting(Phys(), d, BootPages(d, q), pool)
      modifies this`mem, this`tlb, pmm`esp
      ensures ok <==> q > 0 || Slot(old(mem), d, 0).Some? || old(pmm.Free()) != []
      ensures ok ==> Usable() && Booting(Phys(), d, BootPages(d, q + 1), pool)
    {
      if q > 0 {
        BootSlot(Phys(), d, BootPages(d, q), pool, 0);
      }
      LowPage(q);
      ok := MapIdentity(FrameBase(q), d, BootPages(d, q), pool);
      BootPagesNext(d, q);
    }

    /** The mappings of init_paging: the directory's own page, then the first four megabytes. */
    method MapBoot(ghost d: FrameNo, ghost pool: set<FrameNo>) returns (ok: bool)
      requires !paging && Usable() && Dir() == d && kernelDirectory == currentDirectory && Booting(Phys(), d, {}, pool)
      modifies this`mem, this`tlb, pmm`esp
      ensures ok <==> d / 1024 != WINDOW && |old(pmm.Free())| >= BootFrames(d) - 2
      ensures ok ==> Usable() && Booting(Phys(), d, BootPages(d, 1024), pool)
    {
      BootPagesNone(d);
      ok := MapIdentity(kernelDirectory, d, {}, pool);
      if ok {
        ok := MapLow(d, pool);
      }
    }

    /** init_paging. It fails by a panic, in these two cases only: out of frames, or a directory in the
        window's own slot. */
    method InitPaging() returns (ok: bool)
      requires !paging && pmm.Valid() && FreeFrames(Phys(), {}) && FreeClear(Phys()) && 0 !in FreeSet(Phys())
      modifies this`mem, this`tlb, this`cr3, this`paging, this`kernelDirectory, this`tableMappings,
        this`currentDirectory, pmm`esp
      ensures ok <==> |old(pmm.Free())| >= 2
                      && var d := FrameOf(old(pmm.Free())[0]);
                         d / 1024 != 1023 && |old(pmm.Free())| >= if d < 1024 then 3 else 4
      ensures ok ==> paging && Usable() && kernelDirectory == currentDirectory
      ensures ok ==> forall q: PageNo | q / 1024 != 1023 ::
        if q < 1024 || q == cr3 then Translate(mem, cr3, q) == Some(q) && Leaf(mem, cr3, q) == 4096 * (q as int) + 7
        else Translate(mem, cr3, q) == None
      ensures ok ==> Booting(Phys(), cr3, BootPages(cr3, 1024), FreeSet(old(Phys())))
    {
      ghost var pool := FreeSet(Phys());
      ok := InitRoots();
      if ok {
        assert FrameOf(kernelDirectory) in pool && kernelDirectory != 0;
        ghost var d := Dir();
        ok := Boot(d, pool);
      }
    }

    /** What follows the roots. */
    method Boot(ghost d: FrameNo, ghost pool: set<FrameNo>) returns (ok: bool)
      requires !paging && Usable() && Dir() == d && kernelDirectory == currentDirectory != 0
      requires Booting(Phys(), d, {}, pool)
      modifies this`mem, this`cr3, this`tlb, this`paging, this`tableMappings, this`currentDirectory, pmm`esp
      ensures ok <==> d / 1024 != WINDOW && |old(pmm.Free())| >= BootFrames(d) - 2
      ensures ok ==> paging && Usable() && cr3 == d && currentDirectory == kernelDirectory
      ensures ok ==> Booting(Phys(), d, BootPages(d, 1024), pool)
    {
      ok := MapBoot(d, pool);
      if ok {
        EnablePaging(d, pool);
      }
    }

    /** The end of init_paging: CR3 is loaded, paging is on, and table_mappings moves to the window. */
    method EnablePaging(ghost d: FrameNo, ghost pool: set<FrameNo>)
      requires !paging && Usable() && Dir() == d && kernelDirectory == currentDirectory != 0
      requires Booting(Phys(), d, BootPages(d, 1024), pool) && d / 1024 != WINDOW
      modifies this`cr3, this`tlb, this`paging, this`tableMappings, this`currentDirectory
      ensures paging && Usable() && cr3 == d && currentDirectory == kernelDirectory
      ensures Booting(Phys(), d, BootPages(d, 1024), pool)
    {
      SetPageDirectory(kernelDirectory, true);
      paging, tableMappings := true, 0xFFFF_F000;
    }
  }
}
