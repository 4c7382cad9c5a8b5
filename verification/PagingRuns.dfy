/** Runs of the paging operations over many address spaces that share the kernel's tables. */
module PagingRuns {
  import opened Words
  import opened Mmu
  import opened PageTables
  import opened AddressSpaces
  import opened FrameAccounting
  import opened Paging

  /** Physical memory with its free frames, the room on the frame stack, the directories of all spaces, the one
      in force with the pointer to it, and the pointer to the kernel's. */
  datatype World = World(s: Phys, size: nat, ds: set<FrameNo>, current: FrameNo, ptr: Word, kernelPtr: Word)

  datatype Call =
    | Map(pAddr: Word, vAddr: Word, flags: Byte)
    | Knpalloc(vAddr: Word)
    | Kpfree(vAddr: Word)
    | KpfreeVirtual(vAddr: Word)
    | Access(vAddr: Word, write: bool)
    | SetPageDirectory(pdir: Word)
    | CopyPageDirectory(srcDir: Word, newDir: Word, ptMap: Word)

  /** The invariant: all spaces are self-mapped, free frames hold no tables, and the pointer through which the
      kernel edits the directory in force leads to that directory. */
  ghost predicate Good(w: World)
  {
    InSpace(w.s, w.ds, w.current, w.ptr)
  }

  /** The frame behind a pointer, as the space in force has it. */
  function Behind(w: World, v: Word): FrameNo
  {
    if Home(w.s.mem, w.current, v).Some? then Home(w.s.mem, w.current, v).value else 0
  }

  /** The pointer leads to the directory `e` from the space of `d` and from that of `e`. */
  predicate Enters(m: Memory, d: FrameNo, e: FrameNo, pdir: Word)
  {
    Home(m, d, pdir) == Some(e) && Home(m, e, pdir) == Some(e)
  }

  /** The frame that knpalloc would put behind a page. */
  function Taken(w: World, vAddr: Word): Word
  {
    if w.s.free != [] && w.s.free[0] != 0 then w.s.free[0] else vAddr
  }

  /** What the callers see to. Nothing is done to slot 1023; mappings are present; the directory's own page stays
      where it is; kpfree gives back a frame of the page's own, for which there is room; no table is emptied that
      another space reaches; a directory is entered by a pointer that leads to it before and after; and the
      pointers of a copy are kernel memory, mapped alike in every space. */
  ghost predicate Legal(w: World, c: Call)
  {
    var m, d := w.s.mem, w.current;
    match c
    case Map(pAddr, vAddr, flags) => flags % 2 == 1 && StaysPut(d, true, w.ptr, PageOf(vAddr), PtEntry(pAddr, flags))
    case Knpalloc(vAddr) =>
      VAddrToPde(vAddr) != WINDOW && StaysPut(d, true, w.ptr, PageOf(vAddr), PtEntry(Taken(w, vAddr), COPY_FLAGS))
    case Kpfree(vAddr) =>
      var p := PageOf(vAddr);
      && VAddrToPde(vAddr) != WINDOW && p != PageOf(w.ptr) && OwnFrame(w.s, w.ds, d, p) && Releasable(m, w.ds, d, p)
      && |FreePage(w.s, d, p).free| <= w.size
    case KpfreeVirtual(vAddr) =>
      var p := PageOf(vAddr);
      && VAddrToPde(vAddr) != WINDOW && p != PageOf(w.ptr) && Releasable(m, w.ds, d, p)
      && |UnmapPage(w.s, d, p).free| <= w.size
    case Access(vAddr, _) => Translate(m, d, PageOf(vAddr)) != None
    case SetPageDirectory(pdir) =>
      pdir == 0 || (pdir % 4096 == 0 && Behind(w, pdir) in w.ds && Enters(m, d, Behind(w, pdir), pdir))
    case CopyPageDirectory(srcDir, newDir, ptMap) =>
      CopyReady(w, srcDir, newDir, ptMap, Behind(w, w.kernelPtr), Behind(w, srcDir), Behind(w, newDir),
        Behind(w, ptMap))
  }

  ghost predicate CopyReady(w: World, srcDir: Word, newDir: Word, ptMap: Word, kernel: FrameNo, src: FrameNo,
          n: FrameNo, f: FrameNo)
  {
    var m := w.s.mem;
    && kernel in w.ds && src in w.ds && Spare(w.s, w.ds, n, f)
    && KernelWide(m, w.ds, w.kernelPtr, kernel) && KernelWide(m, w.ds, srcDir, src)
    && KernelWide(m, w.ds, newDir, n) && KernelWide(m, w.ds, ptMap, f)
    && forall e | e in w.ds :: PhysicalAddress(m, e, PageOf(ptMap)) == 4096 * (f as int)
  }

  /** One call; None is a panic, which stops the kernel. */
  function Next(w: World, c: Call): Option<World>
  {
    match c
    case Map(pAddr, vAddr, flags) =>
      var p := PageOf(vAddr);
      if VAddrToPde(vAddr) == WINDOW || (Slot(w.s.mem, w.current, p / 1024) == None && w.s.free == []) then None
      else Some(w.(s := MapPage(w.s, w.current, p, pAddr, flags)))
    case Knpalloc(vAddr) =>
      (match AllocPage(w.s, w.current, vAddr)
       case None => None
       case Some(t) => Some(w.(s := t)))
    case Kpfree(vAddr) => Some(w.(s := FreePage(w.s, w.current, PageOf(vAddr))))
    case KpfreeVirtual(vAddr) => Some(w.(s := UnmapPage(w.s, w.current, PageOf(vAddr))))
    case Access(vAddr, write) => Some(w.(s := w.s.(mem := Walked(w.s.mem, w.current, PageOf(vAddr), write))))
    case SetPageDirectory(pdir) => if pdir == 0 then Some(w) else Some(w.(current := Behind(w, pdir), ptr := pdir))
    case CopyPageDirectory(srcDir, newDir, ptMap) =>
      var kernel, src, n, f := Behind(w, w.kernelPtr), Behind(w, srcDir), Behind(w, newDir), Behind(w, ptMap);
      match CopySpace(w.s, kernel, src, n, f)
      case None => None
      case Some(t) => Some(w.(s := t, ds := w.ds + {n}, current := src, ptr := srcDir))
  }

  function After(w: World, calls: seq<Call>): Option<World>
    decreases calls
  {
    if calls == [] then Some(w)
    else
      match Next(w, calls[0])
      case None => None
      case Some(w1) => After(w1, calls[1..])
  }

  ghost predicate Runs(w: World, calls: seq<Call>)
    decreases calls
  {
    calls == [] ||
    (Legal(w, calls[0]) && (Next(w, calls[0]).Some? ==> Runs(Next(w, calls[0]).value, calls[1..])))
  }

  /** No page of the window leads to the directory. */
  lemma PointerBelowWindow(w: World)
    requires Good(w)
    ensures PageOf(w.ptr) / 1024 != WINDOW && Slot(w.s.mem, w.current, PageOf(w.ptr) / 1024).Some?
  {
    assert Space(w.s.mem, w.current);
    PageSplit(w.ptr);
    WindowShowsTables(w.s.mem, w.current, VAddrToPte(w.ptr), 0);
  }

  /** A map keeps the invariant if and only if the directory's own page stays on the directory. */
  lemma MapKeepsGood(w: World, pAddr: Word, p: PageNo, flags: Byte)
    requires Good(w) && p / 1024 != WINDOW && flags % 2 == 1
    requires Slot(w.s.mem, w.current, p / 1024).Some? || w.s.free != []
    ensures Good(w.(s := MapPage(w.s, w.current, p, pAddr, flags))) <==>
      StaysPut(w.current, true, w.ptr, p, PtEntry(pAddr, flags))
  {
    PointerBelowWindow(w);
    ReadBack(pAddr, flags);
    MapKeepsSystem(w.s, w.ds, w.current, p, pAddr, flags);
    MapTranslates(w.s, w.ds, w.current, p, pAddr, flags, PageOf(w.ptr));
  }

  lemma KnpallocKeepsGood(w: World, vAddr: Word)
    requires Good(w) && VAddrToPde(vAddr) != WINDOW && AllocPage(w.s, w.current, vAddr).Some?
    ensures Good(w.(s := AllocPage(w.s, w.current, vAddr).value)) <==>
      StaysPut(w.current, true, w.ptr, PageOf(vAddr), PtEntry(Taken(w, vAddr), COPY_FLAGS))
  {
    PageSplit(vAddr);
    PopFree(w.s, w.ds);
    MapKeepsGood(w.(s := w.s.(free := w.s.free[1..])), Taken(w, vAddr), PageOf(vAddr), COPY_FLAGS);
  }

  /** kpfree and kpfree_virtual keep it if and only if the page is not the directory's own, no table is emptied
      that another space reaches and, for kpfree, the frame that is given back is the page's own. */
  lemma FreeKeepsGood(w: World, p: PageNo)
    requires Good(w) && p / 1024 != WINDOW
    ensures Good(w.(s := UnmapPage(w.s, w.current, p))) <==>
      p != PageOf(w.ptr) && Releasable(w.s.mem, w.ds, w.current, p)
    ensures Good(w.(s := FreePage(w.s, w.current, p))) <==>
      p != PageOf(w.ptr) && Releasable(w.s.mem, w.ds, w.current, p) && OwnFrame(w.s, w.ds, w.current, p)
  {
    PointerBelowWindow(w);
    UnmapKeepsSystem(w.s, w.ds, w.current, p);
    FreeKeepsSystem(w.s, w.ds, w.current, p);
    UnmapRefinesRemoval(w.s, w.ds, w.current, p, PageOf(w.ptr));
  }

  lemma CopyKeepsGood(w: World, srcDir: Word, newDir: Word, ptMap: Word)
    requires Good(w) && Legal(w, CopyPageDirectory(srcDir, newDir, ptMap))
    requires Next(w, CopyPageDirectory(srcDir, newDir, ptMap)).Some?
    ensures Good(Next(w, CopyPageDirectory(srcDir, newDir, ptMap)).value)
  {
    var kernel, src, n, f := Behind(w, w.kernelPtr), Behind(w, srcDir), Behind(w, newDir), Behind(w, ptMap);
    NewSpaceKeepsSystem(w.s, w.ds, kernel, n, f);
    CopyKeepsSystem(w.s.(mem := NewSpace(w.s.mem, kernel, n, f)), w.ds + {n}, src, n, 1023 * 1024);
    CopyKeepsKernelWide(w.s, w.ds, kernel, src, n, f, srcDir, src);
    assert KernelPage(CopySpace(w.s, kernel, src, n, f).value.mem, src, srcDir, src);
  }

  /** After a copy the new space can be entered by its pointer, and kernel memory is mapped alike in all spaces,
      the new one included, as the next copy needs it. */
  lemma CopyThenEnter(w: World, srcDir: Word, newDir: Word, ptMap: Word)
    requires Good(w) && Legal(w, CopyPageDirectory(srcDir, newDir, ptMap))
    requires Next(w, CopyPageDirectory(srcDir, newDir, ptMap)).Some?
    ensures var w' := Next(w, CopyPageDirectory(srcDir, newDir, ptMap)).value;
            && Legal(w', SetPageDirectory(newDir)) && Behind(w', newDir) == Behind(w, newDir)
            && w'.ds == w.ds + {Behind(w, newDir)} && KernelMemoryKept(w.s.mem, w'.s.mem, w.ds, w'.ds)
  {
    var kernel, src, n, f := Behind(w, w.kernelPtr), Behind(w, srcDir), Behind(w, newDir), Behind(w, ptMap);
    CopyKeepsKernelMemory(w.s, w.ds, kernel, src, n, f);
    WideEnters(CopySpace(w.s, kernel, src, n, f).value.mem, w.ds + {n}, src, n, newDir);
  }

  lemma WideEnters(m: Memory, ds: set<FrameNo>, d: FrameNo, e: FrameNo, v: Word)
    requires KernelWide(m, ds, v, e) && d in ds && e in ds
    ensures Enters(m, d, e, v) && v % 4096 == 0
  {
    assert KernelPage(m, d, v, e) && KernelPage(m, e, v, e);
  }

  /** A legal call keeps the invariant, unless it panics. */
  lemma NextKeepsGood(w: World, c: Call)
    requires Good(w) && Legal(w, c) && Next(w, c).Some?
    ensures Good(Next(w, c).value)
  {
    match c
    case Map(pAddr, vAddr, flags) =>
      PageSplit(vAddr);
      MapKeepsGood(w, pAddr, PageOf(vAddr), flags);
    case Knpalloc(vAddr) => KnpallocKeepsGood(w, vAddr);
    case Kpfree(vAddr) =>
      PageSplit(vAddr);
      FreeKeepsGood(w, PageOf(vAddr));
    case KpfreeVirtual(vAddr) =>
      PageSplit(vAddr);
      FreeKeepsGood(w, PageOf(vAddr));
    case Access(vAddr, write) =>
      WalkedKeepsSystem(w.s, w.ds, w.current, PageOf(vAddr), write);
    case SetPageDirectory(_) =>
    case CopyPageDirectory(srcDir, newDir, ptMap) => CopyKeepsGood(w, srcDir, newDir, ptMap);
  }

  lemma {:induction false} RunKeepsGood(w: World, calls: seq<Call>)
    requires Good(w) && Runs(w, calls) && After(w, calls).Some?
    ensures Good(After(w, calls).value)
    decreases calls
  {
    if calls != [] {
      NextKeepsGood(w, calls[0]);
      RunKeepsGood(Next(w, calls[0]).value, calls[1..]);
    }
  }

  /** After any run, in every space: slot 1023 maps its own table, the two copies of each slot name the
      same frame, and a walk through the 0xFFC00000 window reads what the processor's walk reads. */
  lemma WalksAgree(w: World, calls: seq<Call>, d: FrameNo, i: Index, j: Index)
    requires Good(w) && Runs(w, calls) && After(w, calls).Some? && d in After(w, calls).value.ds
    ensures var m := After(w, calls).value.s.mem;
            && Slot(m, d, WINDOW) == Some(TablesOf(m, d)) && Slot(m, TablesOf(m, d), WINDOW) == Some(TablesOf(m, d))
            && Slot(m, d, i) == Slot(m, TablesOf(m, d), i)
            && WindowLeaf(m, d, i, j) == if Slot(m, d, i).Some? then Some(Leaf(m, d, PageAt(i, j))) else None
  {
    RunKeepsGood(w, calls);
    var m := After(w, calls).value.s.mem;
    assert Space(m, d);
    WindowShowsTables(m, d, i, j);
  }

  lemma EnteredHasTable(w: World, pdir: Word)
    requires Good(w) && Legal(w, SetPageDirectory(pdir))
    ensures pdir != 0 ==> Home(w.s.mem, w.current, pdir).Some? && Target(w.s.mem, w.current, pdir) == Behind(w, pdir)
  {
    PageSplit(pdir);
  }

  /** The machine is in the state `w`, and no cached translation is stale. */
  ghost predicate Shows(machine: Machine, w: World)
    reads machine, machine.pmm, machine.pmm.stack
  {
    && machine.Running(w.current, w.ptr) && machine.Phys() == w.s
    && machine.pmm.size == w.size && machine.kernelDirectory == w.kernelPtr
  }

  lemma ShowsUsable(machine: Machine, w: World)
    requires Shows(machine, w) && Good(w)
    ensures machine.Usable() && System(machine.Phys(), {machine.Dir()}) && machine.Dir() == w.current
  {
    EnterSpace(w.s, w.ds, w.current, w.ptr);
  }

  /** init_paging ends in a state from which a run can start. */
  method Start(machine: Machine) returns (ok: bool)
    requires !machine.paging && machine.pmm.Valid()
    requires FreeFrames(machine.Phys(), {}) && FreeClear(machine.Phys()) && 0 !in FreeSet(machine.Phys())
    modifies machine, machine.pmm`esp
    ensures ok ==> machine.Usable() && var w := World(machine.Phys(), machine.pmm.size, {machine.cr3}, machine.cr3,
                                                machine.currentDirectory, machine.currentDirectory);
                   Shows(machine, w) && Good(w)
  {
    ok := machine.InitPaging();
  }

  method PerformMap(machine: Machine, c: Call, ghost w: World) returns (ok: bool)
    requires Shows(machine, w) && Good(w) && Legal(w, c) && (c.Map? || c.Knpalloc?)
    modifies machine, machine.pmm`esp
    ensures ok <==> Next(w, c).Some?
    ensures ok ==> Shows(machine, Next(w, c).value)
  {
    ShowsUsable(machine, w);
    PageSplit(c.vAddr);
    if c.Map? {
      ok := machine.Map(c.pAddr, c.vAddr, c.flags);
    } else {
      ok := machine.Knpalloc(c.vAddr);
    }
  }

  method PerformFree(machine: Machine, c: Call, ghost w: World)
    requires Shows(machine, w) && Good(w) && Legal(w, c) && (c.Kpfree? || c.KpfreeVirtual?)
    modifies machine, machine.pmm`esp, machine.pmm.stack
    ensures Shows(machine, Next(w, c).value)
  {
    ShowsUsable(machine, w);
    assert Space(w.s.mem, w.current);
    if c.Kpfree? {
      machine.Kpfree(c.vAddr);
    } else {
      machine.KpfreeVirtual(c.vAddr);
    }
  }

  method PerformSwitch(machine: Machine, c: Call, ghost w: World)
    requires Shows(machine, w) && Good(w) && Legal(w, c) && c.SetPageDirectory?
    modifies machine
    ensures Shows(machine, Next(w, c).value)
  {
    ShowsUsable(machine, w);
    EnteredHasTable(w, c.pdir);
    machine.SetPageDirectory(c.pdir, false);
  }

  method PerformCopy(machine: Machine, srcDir: Word, newDir: Word, ptMap: Word, ghost w: World, ghost kernel: FrameNo,
          ghost src: FrameNo, ghost n: FrameNo, ghost f: FrameNo)
    returns (ok: bool)
    requires Shows(machine, w) && Good(w) && CopyReady(w, srcDir, newDir, ptMap, kernel, src, n, f)
    modifies machine, machine.pmm`esp
    ensures ok <==> CopySpace(w.s, kernel, src, n, f).Some?
    ensures ok ==> machine.Running(src, srcDir) && Some(machine.Phys()) == CopySpace(w.s, kernel, src, n, f)
    ensures machine.pmm.size == w.size && machine.kernelDirectory == w.kernelPtr
  {
    ok := machine.CopyPageDirectory(srcDir, newDir, ptMap, w.ds, kernel, src, n, f);
  }

  /** The code does what `Next` says; false is the panic. */
  method Perform(machine: Machine, c: Call, ghost w: World) returns (ok: bool)
    requires Shows(machine, w) && Good(w) && Legal(w, c)
    modifies machine, machine.pmm`esp, machine.pmm.stack
    ensures ok <==> Next(w, c).Some?
    ensures ok ==> Shows(machine, Next(w, c).value)
  {
    ok := true;
    match c {
      case Map(_, _, _) => ok := PerformMap(machine, c, w);
      case Knpalloc(_) => ok := PerformMap(machine, c, w);
      case Kpfree(_) => PerformFree(machine, c, w);
      case KpfreeVirtual(_) => PerformFree(machine, c, w);
      case Access(vAddr, write) => machine.Touch(vAddr, write);
      case SetPageDirectory(_) => PerformSwitch(machine, c, w);
      case CopyPageDirectory(srcDir, newDir, ptMap) =>
        ok := PerformCopy(machine, srcDir, newDir, ptMap, w, Behind(w, w.kernelPtr), Behind(w, srcDir),
          Behind(w, newDir), Behind(w, ptMap));
    }
  }

  /** Any run on the machine: memory, free frames, CR3 and the pointers are what the model says, every pointer
      leads where it should, and no cached translation is stale. */
  method Run(machine: Machine, calls: seq<Call>, ghost w: World) returns (ok: bool)
    requires Shows(machine, w) && Good(w) && Runs(w, calls)
    modifies machine, machine.pmm`esp, machine.pmm.stack
    ensures ok <==> After(w, calls).Some?
    ensures ok ==> Shows(machine, After(w, calls).value) && Good(After(w, calls).value) && machine.Usable()
    decreases calls
  {
    if calls == [] {
      ShowsUsable(machine, w);
      return true;
    }
    ok := Perform(machine, calls[0], w);
    if ok {
      NextKeepsGood(w, calls[0]);
      ok := Run(machine, calls[1..], Next(w, calls[0]).value);
    }
  }
}
