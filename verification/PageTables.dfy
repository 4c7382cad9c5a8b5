/** What map, kpfree and kpfree_virtual do to physical memory and to the free frames, stated on the
    two levels the processor walks, and what that means for the address spaces. */
module PageTables {
  import opened Arithmetic
  import opened Words
  import opened Mmu

  /** Physical memory and the addresses of the free frames, next to be handed out first. */
  datatype Phys = Phys(mem: Memory, free: seq<Word>)

  /** The first free frame becomes the table of slot `i`: `x` goes into both copies of the directory. */
  function AddTable(s: Phys, d: FrameNo, i: Index, x: Word): Phys
    requires s.free != []
  {
    Phys(Poke(Poke(s.mem, TablesOf(s.mem, d), i, x), d, i, x), s.free[1..])
  }

  /** map: one leaf entry is written, in a table taken from the free frames if there was none. */
  function MapPage(s: Phys, d: FrameNo, p: PageNo, addr: Word, flags: Byte): Phys
    requires Slot(s.mem, d, p / 1024).Some? || s.free != []
  {
    var s1 := if Slot(s.mem, d, p / 1024).Some? then s else AddTable(s, d, p / 1024, PtEntry(s.free[0], flags));
    s1.(mem := Poke(s1.mem, FrameOf(s1.mem[d][p / 1024]), p % 1024, PtEntry(addr, flags)))
  }

  /** `x` is a present entry for the first free frame. */
  ghost predicate NamesFirstFree(s: Phys, x: Word)
  {
    s.free != [] && Present(x) && FrameOf(x) == FrameOf(s.free[0]) && x % 4096 < 256
  }

  lemma EntryNamesFirstFree(s: Phys, ds: set<FrameNo>, flags: Byte)
    requires FreeFrames(s, ds) && s.free != [] && flags % 2 == 1
    ensures NamesFirstFree(s, PtEntry(s.free[0], flags))
  {
    assert s.free[0] % 4096 == 0;
    AlignedEntry(s.free[0], flags);
  }

  predicate Empty(t: Frame) { forall k: Index :: t[k] == 0 }

  /** An emptied table leaves both copies of the directory and its frame goes back to the pool. */
  function DropTable(s: Phys, d: FrameNo, i: Index): Phys
  {
    Phys(Poke(Poke(s.mem, d, i, 0), TablesOf(s.mem, d), i, 0), [Address(s.mem[TablesOf(s.mem, d)][i])] + s.free)
  }

  /** The leaf entry of page `p` is cleared. */
  function Cleared(s: Phys, d: FrameNo, p: PageNo): Phys
  {
    s.(mem := Poke(s.mem, FrameOf(s.mem[d][p / 1024]), p % 1024, 0))
  }

  /** kpfree_virtual: the leaf entry is cleared, and the table with it if that was its last entry. */
  function UnmapPage(s: Phys, d: FrameNo, p: PageNo): Phys
  {
    if Translate(s.mem, d, p) == None then s
    else
      var s1 := Cleared(s, d, p);
      if Empty(s1.mem[FrameOf(s.mem[d][p / 1024])]) then DropTable(s1, d, p / 1024) else s1
  }

  /** kpfree: the page's own frame goes back as well, after its table's. */
  function FreePage(s: Phys, d: FrameNo, p: PageNo): Phys
  {
    var s1 := UnmapPage(s, d, p);
    if Translate(s.mem, d, p) == None then s1 else s1.(free := [Address(Leaf(s.mem, d, p))] + s1.free)
  }

  /** The pages that lose the translation they had: the ones a TLB may now hold stale. */
  ghost function Lost(m: Memory, m': Memory, d: FrameNo): set<PageNo>
  {
    set p: PageNo | 0 <= p < 0x10_0000 && Translate(m, d, p) != None && Translate(m, d, p) != Translate(m', d, p)
  }

  lemma PokeLeaf(m: Memory, d: FrameNo, i: Index, j: Index, x: Word, q: PageNo)
    requires Tree(m, d) && Slot(m, d, i).Some?
    ensures var m' := Poke(m, FrameOf(m[d][i]), j, x);
            && m'[d] == m[d]
            && Translate(m', d, q) == if q != PageAt(i, j) then Translate(m, d, q)
                                      else if Present(x) then Some(FrameOf(x)) else None
  {
    var m' := Poke(m, FrameOf(m[d][i]), j, x);
    assert Slot(m, d, i) == Some(FrameOf(m[d][i])) != Some(d);
    assert Slot(m', d, q / 1024) == Slot(m, d, q / 1024);
  }

  lemma PokeSlot(m: Memory, d: FrameNo, i: Index, x: Word, q: PageNo)
    requires Tree(m, d)
    ensures var m' := Poke(m, d, i, x);
            q / 1024 != i ==> Translate(m', d, q) == Translate(m, d, q)
  {
    var m' := Poke(m, d, i, x);
    assert q / 1024 != i ==> Slot(m', d, q / 1024) == Slot(m, d, q / 1024);
  }

  /** Writing a leaf can only make its own page stale. */
  lemma LostByLeaf(m: Memory, d: FrameNo, i: Index, j: Index, x: Word)
    requires Tree(m, d) && Slot(m, d, i).Some?
    ensures Lost(m, Poke(m, FrameOf(m[d][i]), j, x), d) <= if Translate(m, d, PageAt(i, j)) == None then {}
      else {PageAt(i, j)}
  {
    forall q | q in Lost(m, Poke(m, FrameOf(m[d][i]), j, x), d)
      ensures q == PageAt(i, j) && Translate(m, d, q) != None
    {
      PokeLeaf(m, d, i, j, x, q);
    }
  }

  /** Writing a slot none of whose pages is mapped makes nothing stale. */
  lemma LostBySlot(m: Memory, d: FrameNo, i: Index, x: Word)
    requires Tree(m, d) && (Slot(m, d, i) == None || Empty(m[FrameOf(m[d][i])]))
    ensures Lost(m, Poke(m, d, i, x), d) == {}
  {
    forall q | q in Lost(m, Poke(m, d, i, x), d)
      ensures false
    {
      PokeSlot(m, d, i, x, q);
    }
  }

  /** No table of `d` is the directory `d'`, and a table that both reach is in the same slot of both, which is
      not 1023. */
  ghost predicate Apart(m: Memory, d: FrameNo, d': FrameNo)
  {
    && (forall i: Index :: Slot(m, d, i) != Some(d'))
    && (forall i: Index, k: Index | Slot(m, d, i).Some? && Slot(m, d, i) == Slot(m, d', k) ::
          i == k && (i == WINDOW ==> d == d'))
  }

  /** Every address space in `ds` is self-mapped. Two spaces may share the table of a slot (the
      kernel's tables are shared by all), but only in the same slot, and never the directory or the
      frame behind slot 1023. */
  ghost predicate Spaces(m: Memory, ds: set<FrameNo>)
  {
    && (forall d {:trigger Space(m, d)} | d in ds :: Space(m, d))
    && (forall d, d' {:trigger Apart(m, d, d')} | d in ds && d' in ds :: Apart(m, d, d'))
  }

  /** Present directory entries have bits 8..11 clear, so the kernel reads back the table's base. */
  ghost predicate Aligned(directory: Frame)
  {
    forall i: Index :: Present(directory[i]) ==> directory[i] % 4096 < 256
  }

  ghost predicate Space(m: Memory, d: FrameNo)
  {
    SelfMapped(m, d) && Aligned(m[d]) && Aligned(m[TablesOf(m, d)])
  }

  /** Frames that hold a directory or a table of some space. */
  ghost predicate Structural(m: Memory, ds: set<FrameNo>, f: FrameNo)
  {
    f in ds || exists d, i: Index | d in ds :: Slot(m, d, i) == Some(f)
  }

  /** Free frames are page aligned, listed once, and hold no directory or table. */
  ghost predicate FreeFrames(s: Phys, ds: set<FrameNo>)
  {
    && (forall n | 0 <= n < |s.free| :: s.free[n] % 4096 == 0 && !Structural(s.mem, ds, FrameOf(s.free[n])))
    && (forall n, n' | 0 <= n < n' < |s.free| :: s.free[n] != s.free[n'])
  }

  /** The invariant of all paging operations. */
  ghost predicate System(s: Phys, ds: set<FrameNo>)
  {
    match s
    case Phys(m, _) => Spaces(m, ds) && FreeFrames(s, ds)
  }

  /** No other space reaches the table of directory slot `i` of `d`. */
  ghost predicate Unshared(m: Memory, ds: set<FrameNo>, d: FrameNo, i: Index)
  {
    forall d' | d' in ds && d' != d && Slot(m, d', i).Some? :: Slot(m, d', i) != Slot(m, d, i)
  }

  /** Both copies of slot `i` of `d` change to `x`, and no other directory or window table changes. */
  ghost predicate SlotSet(m: Memory, m': Memory, ds: set<FrameNo>, d: FrameNo, i: Index, x: Word)
  {
    && m'[d] == m[d][i := x] && m'[TablesOf(m, d)] == m[TablesOf(m, d)][i := x]
    && (forall d' | d' in ds && d' != d :: m'[d'] == m[d'] && m'[TablesOf(m, d')] == m[TablesOf(m, d')])
  }

  lemma SlotSetKeepsSpaces(m: Memory, m': Memory, ds: set<FrameNo>, d: FrameNo, i: Index, x: Word)
    requires Spaces(m, ds) && d in ds && i != WINDOW && SlotSet(m, m', ds, d, i, x)
    requires Present(x) ==> x % 4096 < 256 && !Structural(m, ds, FrameOf(x))
    ensures Spaces(m', ds)
  {
    assert Space(m, d);
    forall d', k: Index | d' in ds
      ensures Slot(m', d', k) == if d' == d && k == i then (if Present(x) then Some(FrameOf(x)) else None)
        else Slot(m, d', k)
    {
    }
    assert Present(x) ==> forall d', k: Index | d' in ds :: Slot(m, d', k) != Some(FrameOf(x));
    forall d' | d' in ds
      ensures Space(m', d')
    {
      assert Space(m, d');
    }
    forall d', e | d' in ds && e in ds
      ensures Apart(m', d', e)
    {
      assert Apart(m, d', e);
    }
  }

  lemma SlotSetStructural(m: Memory, m': Memory, ds: set<FrameNo>, d: FrameNo, i: Index, x: Word, f: FrameNo)
    requires Spaces(m, ds) && d in ds && i != WINDOW && SlotSet(m, m', ds, d, i, x)
    requires Structural(m', ds, f)
    ensures Structural(m, ds, f) || (Present(x) && f == FrameOf(x))
    ensures Slot(m, d, i).Some? && !Present(x) && Unshared(m, ds, d, i) ==> f != FrameOf(m[d][i])
  {
    if f !in ds {
      var d', k: Index :| d' in ds && Slot(m', d', k) == Some(f);
      assert Apart(m, d, d');
      if !(d' == d && k == i) {
        assert Slot(m', d', k) == Slot(m, d', k);
      }
    } else {
      assert Apart(m, d, f);
    }
  }

  /** The other way round: only the table that a slot named before can stop being one. */
  lemma SlotSetKeepsSlots(m: Memory, m': Memory, ds: set<FrameNo>, d: FrameNo, i: Index, x: Word, f: FrameNo)
    requires Spaces(m, ds) && d in ds && i != WINDOW && SlotSet(m, m', ds, d, i, x)
    requires Structural(m, ds, f) && f != FrameOf(m[d][i])
    ensures Structural(m', ds, f)
  {
    if f !in ds {
      var d', k: Index :| d' in ds && Slot(m, d', k) == Some(f);
      assert Slot(m', d', k) == Some(f);
    }
  }

  lemma FreeAfterSlotSet(s: Phys, s': Phys, ds: set<FrameNo>, d: FrameNo, i: Index, x: Word)
    requires System(s, ds) && d in ds && i != WINDOW && SlotSet(s.mem, s'.mem, ds, d, i, x) && s'.free == s.free
    requires Present(x) ==> forall n | 0 <= n < |s.free| :: FrameOf(s.free[n]) != FrameOf(x)
    ensures FreeFrames(s', ds)
  {
    forall n | 0 <= n < |s'.free|
      ensures !Structural(s'.mem, ds, FrameOf(s'.free[n]))
    {
      assert !Structural(s.mem, ds, FrameOf(s.free[n]));
      if Structural(s'.mem, ds, FrameOf(s'.free[n])) {
        SlotSetStructural(s.mem, s'.mem, ds, d, i, x, FrameOf(s'.free[n]));
      }
    }
  }

  lemma TwoPokes(m: Memory, ds: set<FrameNo>, d: FrameNo, i: Index, x: Word)
    requires Spaces(m, ds) && d in ds
    ensures SlotSet(m, Poke(Poke(m, TablesOf(m, d), i, x), d, i, x), ds, d, i, x)
    ensures Poke(Poke(m, TablesOf(m, d), i, x), d, i, x) == Poke(Poke(m, d, i, x), TablesOf(m, d), i, x)
  {
    assert Space(m, d);
    var m1 := Poke(m, TablesOf(m, d), i, x);
    var m' := Poke(m1, d, i, x);
    assert m' == Poke(Poke(m, d, i, x), TablesOf(m, d), i, x);
    forall d' | d' in ds && d' != d
      ensures m'[d'] == m[d'] && m'[TablesOf(m, d')] == m[TablesOf(m, d')]
    {
      assert Space(m, d') && Apart(m, d, d') && Apart(m, d', d);
      assert Slot(m, d, WINDOW) != Some(d') && Slot(m, d', WINDOW) != Some(d);
    }
  }

  lemma PushFree(s: Phys, ds: set<FrameNo>, addr: Word)
    requires FreeFrames(s, ds) && addr % 4096 == 0 && addr !in s.free && !Structural(s.mem, ds, FrameOf(addr))
    ensures FreeFrames(s.(free := [addr] + s.free), ds)
  {
    var free := [addr] + s.free;
    assert forall n | 0 < n < |free| :: free[n] == s.free[n - 1];
  }

  lemma PopFree(s: Phys, ds: set<FrameNo>)
    requires FreeFrames(s, ds) && s.free != []
    ensures FreeFrames(s.(free := s.free[1..]), ds)
    ensures forall n | 1 <= n < |s.free| :: FrameOf(s.free[n]) != FrameOf(s.free[0])
  {
    assert forall n | 0 <= n < |s.free| - 1 :: s.free[1..][n] == s.free[n + 1];
  }

  lemma AddTableKeepsSystem(s: Phys, ds: set<FrameNo>, d: FrameNo, i: Index, x: Word)
    requires System(s, ds) && d in ds && i != WINDOW && Slot(s.mem, d, i) == None && NamesFirstFree(s, x)
    ensures System(AddTable(s, d, i, x), ds)
    ensures SlotSet(s.mem, AddTable(s, d, i, x).mem, ds, d, i, x)
    ensures AddTable(s, d, i, x).mem[FrameOf(x)] == s.mem[FrameOf(x)]
  {
    var s' := AddTable(s, d, i, x);
    TwoPokes(s.mem, ds, d, i, x);
    assert !Structural(s.mem, ds, FrameOf(x));
    assert Spaces(s'.mem, ds) by { SlotSetKeepsSpaces(s.mem, s'.mem, ds, d, i, x); }
    assert FreeFrames(s', ds) by {
      PopFree(s, ds);
      FreeAfterSlotSet(Phys(s.mem, s.free[1..]), s', ds, d, i, x);
    }
    assert s'.mem[FrameOf(x)] == s.mem[FrameOf(x)] by {
      assert Space(s.mem, d);
      assert Slot(s.mem, d, WINDOW) == Some(TablesOf(s.mem, d));
    }
  }

  lemma PokeLeafKeepsSystem(s: Phys, ds: set<FrameNo>, d: FrameNo, i: Index, j: Index, x: Word)
    requires System(s, ds) && d in ds && i != WINDOW && Slot(s.mem, d, i).Some?
    ensures System(s.(mem := Poke(s.mem, FrameOf(s.mem[d][i]), j, x)), ds)
  {
    var s' := s.(mem := Poke(s.mem, FrameOf(s.mem[d][i]), j, x));
    forall d' | d' in ds
      ensures s'.mem[d'] == s.mem[d'] && s'.mem[TablesOf(s.mem, d')] == s.mem[TablesOf(s.mem, d')]
    {
      assert Space(s.mem, d') && Apart(s.mem, d, d');
      assert Slot(s.mem, d, i) != Some(d') && Slot(s.mem, d, i) != Slot(s.mem, d', WINDOW);
    }
    SameDirectories(s.mem, s'.mem, ds);
  }

  /** Only the directories and the frames behind slot 1023 decide which frames hold tables. */
  lemma SameDirectories(m: Memory, m': Memory, ds: set<FrameNo>)
    requires Spaces(m, ds)
    requires forall d | d in ds :: m'[d] == m[d] && m'[TablesOf(m, d)] == m[TablesOf(m, d)]
    ensures Spaces(m', ds)
    ensures forall f: FrameNo :: Structural(m', ds, f) == Structural(m, ds, f)
  {
    assert forall d, i: Index | d in ds :: Slot(m', d, i) == Slot(m, d, i);
    forall d | d in ds
      ensures Space(m', d)
    {
      assert Space(m, d);
    }
    forall d, d' | d in ds && d' in ds
      ensures Apart(m', d, d')
    {
      assert Apart(m, d, d');
    }
  }

  /** map keeps both copies of every directory equal. */
  lemma MapKeepsSystem(s: Phys, ds: set<FrameNo>, d: FrameNo, p: PageNo, addr: Word, flags: Byte)
    requires System(s, ds) && d in ds && p / 1024 != WINDOW && flags % 2 == 1
    requires Slot(s.mem, d, p / 1024).Some? || s.free != []
    ensures System(MapPage(s, d, p, addr, flags), ds)
  {
    var s1 := s;
    if Slot(s.mem, d, p / 1024) == None {
      var x := PtEntry(s.free[0], flags);
      EntryNamesFirstFree(s, ds, flags);
      AddTableKeepsSystem(s, ds, d, p / 1024, x);
      s1 := AddTable(s, d, p / 1024, x);
    }
    PokeLeafKeepsSystem(s1, ds, d, p / 1024, p % 1024, PtEntry(addr, flags));
  }

  /** The words map writes: the page's entry is the address or-ed with the flags, and a new table's frame is
      entered in both copies of its slot with the same flags. */
  lemma MapWrites(s: Phys, ds: set<FrameNo>, d: FrameNo, p: PageNo, addr: Word, flags: Byte)
    requires System(s, ds) && d in ds && p / 1024 != WINDOW && flags % 2 == 1
    requires Slot(s.mem, d, p / 1024).Some? || s.free != []
    ensures var m' := MapPage(s, d, p, addr, flags).mem;
            && (forall k: nat | k < 32 :: Bit(Leaf(m', d, p), k) <==> Bit(addr, k) || Bit(flags, k))
            && (Slot(s.mem, d, p / 1024).Some? ==> m'[d] == s.mem[d])
            && (Slot(s.mem, d, p / 1024) == None ==>
                  m'[d][p / 1024] == m'[TablesOf(m', d)][p / 1024] == s.free[0] + flags)
  {
    var i, e, s1 := p / 1024, PtEntry(addr, flags), s;
    assert Space(s.mem, d);
    if Slot(s.mem, d, i) == None {
      var x := PtEntry(s.free[0], flags);
      EntryNamesFirstFree(s, ds, flags);
      AlignedBase(s.free[0]);
      AddTableKeepsSystem(s, ds, d, i, x);
      s1 := AddTable(s, d, i, x);
    }
    assert Space(s1.mem, d);
    assert Slot(s1.mem, d, i) == Some(FrameOf(s1.mem[d][i])) && Slot(s1.mem, d, WINDOW) == Some(TablesOf(s1.mem, d));
    forall k: nat | k < 32
      ensures Bit(e, k) <==> Bit(addr, k) || Bit(flags, k)
    {
      EntryBits(addr, flags, k);
    }
  }

  /** In particular, of an address whose low byte is clear. */
  lemma MapEntry(s: Phys, ds: set<FrameNo>, d: FrameNo, p: PageNo, addr: Word, flags: Byte)
    requires System(s, ds) && d in ds && p / 1024 != WINDOW && flags % 2 == 1 && addr % 256 == 0
    requires Slot(s.mem, d, p / 1024).Some? || s.free != []
    ensures var m' := MapPage(s, d, p, addr, flags).mem;
            Slot(m', d, p / 1024).Some? && Leaf(m', d, p) == addr + flags
  {
    var i, s1 := p / 1024, s;
    assert Space(s.mem, d);
    if Slot(s.mem, d, i) == None {
      EntryNamesFirstFree(s, ds, flags);
      AddTableKeepsSystem(s, ds, d, i, PtEntry(s.free[0], flags));
      s1 := AddTable(s, d, i, PtEntry(s.free[0], flags));
    }
    assert Space(s1.mem, d);
    assert Slot(s1.mem, d, i) == Some(FrameOf(s1.mem[d][i]));
  }

  /** It writes no other entry of a table that was there. */
  lemma MapLeavesEntries(s: Phys, ds: set<FrameNo>, d: FrameNo, p: PageNo, addr: Word, flags: Byte, q: PageNo)
    requires System(s, ds) && d in ds && p / 1024 != WINDOW && q / 1024 != WINDOW && flags % 2 == 1
    requires Slot(s.mem, d, p / 1024).Some? || s.free != []
    requires q != p && Slot(s.mem, d, q / 1024).Some?
    ensures Leaf(MapPage(s, d, p, addr, flags).mem, d, q) == Leaf(s.mem, d, q)
  {
    var i, s1 := p / 1024, s;
    assert Space(s.mem, d);
    if Slot(s.mem, d, i) == None {
      EntryNamesFirstFree(s, ds, flags);
      AddTableKeepsSystem(s, ds, d, i, PtEntry(s.free[0], flags));
      s1 := AddTable(s, d, i, PtEntry(s.free[0], flags));
      assert Slot(s.mem, d, q / 1024) == Some(FrameOf(s.mem[d][q / 1024]));
      assert Slot(s.mem, d, q / 1024) != Slot(s.mem, d, WINDOW) && Slot(s.mem, d, q / 1024) != Some(d);
    }
    assert Space(s1.mem, d);
    assert Slot(s1.mem, d, i) == Some(FrameOf(s1.mem[d][i]));
  }

  /** Both copies of a slot read back as the base of its table. */
  lemma TableAddress(m: Memory, d: FrameNo, i: Index)
    requires Space(m, d) && Slot(m, d, i).Some?
    ensures Address(m[TablesOf(m, d)][i]) == Address(m[d][i]) == 4096 * (FrameOf(m[d][i]) as int)
    ensures Address(m[d][i]) % 4096 == 0 && FrameOf(Address(m[d][i])) == FrameOf(m[d][i])
  {
    assert Slot(m, TablesOf(m, d), i) == Slot(m, d, i);
    ReadBackAligned(m[d][i]);
    ReadBackAligned(m[TablesOf(m, d)][i]);
  }

  lemma DropTableKeepsSystem(s: Phys, ds: set<FrameNo>, d: FrameNo, i: Index)
    requires System(s, ds) && d in ds && i != WINDOW && Slot(s.mem, d, i).Some? && Unshared(s.mem, ds, d, i)
    ensures System(DropTable(s, d, i), ds)
  {
    var s1 := Phys(DropTable(s, d, i).mem, s.free);
    var f := FrameOf(s.mem[d][i]);
    assert System(s1, ds) && !Structural(s1.mem, ds, f) by {
      TwoPokes(s.mem, ds, d, i, 0);
      SlotSetKeepsSpaces(s.mem, s1.mem, ds, d, i, 0);
      FreeAfterSlotSet(s, s1, ds, d, i, 0);
      if Structural(s1.mem, ds, f) {
        SlotSetStructural(s.mem, s1.mem, ds, d, i, 0, f);
      }
    }
    assert Address(s.mem[d][i]) % 4096 == 0 && FrameOf(Address(s.mem[d][i])) == f by {
      assert Space(s.mem, d);
      TableAddress(s.mem, d, i);
    }
    assert Address(s.mem[d][i]) !in s.free by {
      assert Slot(s.mem, d, i) == Some(f);
      assert Structural(s.mem, ds, f);
    }
    TableAddress(s.mem, d, i);
    PushFree(s1, ds, Address(s.mem[d][i]));
  }

  /** Releasing a table keeps the invariant if and only if no other space reaches it: a table that one
      does would be both free and in use. */
  lemma ReleaseNeedsUnshared(s: Phys, ds: set<FrameNo>, d: FrameNo, i: Index)
    requires System(s, ds) && d in ds && i != WINDOW && Slot(s.mem, d, i).Some?
    ensures System(DropTable(s, d, i), ds) <==> Unshared(s.mem, ds, d, i)
  {
    if Unshared(s.mem, ds, d, i) {
      DropTableKeepsSystem(s, ds, d, i);
    } else {
      var d' :| d' in ds && d' != d && Slot(s.mem, d', i).Some? && Slot(s.mem, d', i) == Slot(s.mem, d, i);
      var s' := DropTable(s, d, i);
      TwoPokes(s.mem, ds, d, i, 0);
      assert Space(s.mem, d);
      TableAddress(s.mem, d, i);
      assert Slot(s'.mem, d', i) == Some(FrameOf(s'.free[0]));
      assert Structural(s'.mem, ds, FrameOf(s'.free[0]));
    }
  }

  /** Unmapping page `p` clears the last word of its table that is not zero. */
  ghost predicate Empties(m: Memory, d: FrameNo, p: PageNo)
  {
    Translate(m, d, p) != None && Empty(m[FrameOf(m[d][p / 1024])][p % 1024 := 0])
  }

  /** What unmapping page `p` would release is reached by no other space. */
  ghost predicate Releasable(m: Memory, ds: set<FrameNo>, d: FrameNo, p: PageNo)
  {
    Empties(m, d, p) ==> Unshared(m, ds, d, p / 1024)
  }

  /** Clearing a leaf changes no directory and no window table. */
  lemma ClearedLeaf(s: Phys, ds: set<FrameNo>, d: FrameNo, p: PageNo)
    requires System(s, ds) && d in ds && p / 1024 != WINDOW && Translate(s.mem, d, p) != None
    ensures var s1 := Cleared(s, d, p);
            && System(s1, ds) && s1.mem[d] == s.mem[d] && Slot(s1.mem, d, p / 1024) == Slot(s.mem, d, p / 1024)
            && (forall f: FrameNo :: Structural(s1.mem, ds, f) == Structural(s.mem, ds, f))
            && (Unshared(s1.mem, ds, d, p / 1024) <==> Unshared(s.mem, ds, d, p / 1024))
  {
    var i := p / 1024;
    var s1 := Cleared(s, d, p);
    PokeLeafKeepsSystem(s, ds, d, i, p % 1024, 0);
    forall d' | d' in ds
      ensures s1.mem[d'] == s.mem[d'] && s1.mem[TablesOf(s.mem, d')] == s.mem[TablesOf(s.mem, d')]
    {
      assert Space(s.mem, d') && Apart(s.mem, d, d');
      assert Slot(s.mem, d, i) != Some(d') && Slot(s.mem, d, i) != Slot(s.mem, d', WINDOW);
    }
    SameDirectories(s.mem, s1.mem, ds);
  }

  /** Releasing the emptied table then clears both copies of its slot. */
  lemma ReleasedSlot(s: Phys, ds: set<FrameNo>, d: FrameNo, p: PageNo) returns (m: Memory, m': Memory)
    requires System(s, ds) && d in ds && p / 1024 != WINDOW && Empties(s.mem, d, p)
    ensures UnmapPage(s, d, p).mem == m' && m[d] == s.mem[d]
    ensures Spaces(m, ds) && SlotSet(m, m', ds, d, p / 1024, 0)
    ensures forall f: FrameNo :: Structural(m, ds, f) == Structural(s.mem, ds, f)
  {
    ClearedLeaf(s, ds, d, p);
    m := Cleared(s, d, p).mem;
    m' := DropTable(Cleared(s, d, p), d, p / 1024).mem;
    TwoPokes(m, ds, d, p / 1024, 0);
  }

  /** kpfree_virtual keeps the invariant if and only if it empties no table that another space reaches. */
  lemma UnmapKeepsSystem(s: Phys, ds: set<FrameNo>, d: FrameNo, p: PageNo)
    requires System(s, ds) && d in ds && p / 1024 != WINDOW
    ensures System(UnmapPage(s, d, p), ds) <==> Releasable(s.mem, ds, d, p)
  {
    if Translate(s.mem, d, p) != None {
      ClearedLeaf(s, ds, d, p);
      if Empties(s.mem, d, p) {
        ReleaseNeedsUnshared(Cleared(s, d, p), ds, d, p / 1024);
      }
    }
  }

  /** It makes no frame a directory or table that was none. */
  lemma UnmapStructural(s: Phys, ds: set<FrameNo>, d: FrameNo, p: PageNo, f: FrameNo)
    requires System(s, ds) && d in ds && p / 1024 != WINDOW && Structural(UnmapPage(s, d, p).mem, ds, f)
    ensures Structural(s.mem, ds, f)
  {
    if Translate(s.mem, d, p) != None {
      if Empties(s.mem, d, p) {
        var m, m' := ReleasedSlot(s, ds, d, p);
        SlotSetStructural(m, m', ds, d, p / 1024, 0, f);
      } else {
        ClearedLeaf(s, ds, d, p);
      }
    }
  }

  lemma UnmapKeepsSelfMap(s: Phys, d: FrameNo, p: PageNo)
    requires Spaces(s.mem, {d}) && p / 1024 != WINDOW
    ensures Spaces(UnmapPage(s, d, p).mem, {d})
  {
    UnmapKeepsSystem(Phys(s.mem, []), {d}, d, p);
  }

  /** The frame that kpfree gives back for page `p` is page aligned, not free already, and no directory or
      table. */
  ghost predicate OwnFrame(s: Phys, ds: set<FrameNo>, d: FrameNo, p: PageNo)
  {
    Translate(s.mem, d, p) != None ==>
      var addr := Address(Leaf(s.mem, d, p));
      addr % 4096 == 0 && addr !in s.free && !Structural(s.mem, ds, FrameOf(addr))
  }

  /** What kpfree does to the free frames. */
  lemma FreedFrames(s: Phys, ds: set<FrameNo>, d: FrameNo, p: PageNo)
    requires System(s, ds) && d in ds && p / 1024 != WINDOW && Translate(s.mem, d, p) != None
    ensures var t, addr, table := UnmapPage(s, d, p), Address(Leaf(s.mem, d, p)), Address(s.mem[d][p / 1024]);
            && FreePage(s, d, p) == t.(free := [addr] + t.free)
            && t.free == (if Empties(s.mem, d, p) then [table] + s.free else s.free)
            && table % 4096 == 0 && FrameOf(table) == FrameOf(s.mem[d][p / 1024])
               && Structural(s.mem, ds, FrameOf(table))
  {
    assert Slot(s.mem, d, p / 1024) == Some(FrameOf(s.mem[d][p / 1024]));
    assert Space(s.mem, d);
    TableAddress(s.mem, d, p / 1024);
    ClearedLeaf(s, ds, d, p);
  }

  /** Taking the first free frame off the list again. */
  lemma WithoutFirst(s: Phys, addr: Word, ds: set<FrameNo>)
    requires System(s.(free := [addr] + s.free), ds)
    ensures System(s, ds)
  {
    PopFree(s.(free := [addr] + s.free), ds);
    assert ([addr] + s.free)[1..] == s.free;
  }

  /** The first free frame, by the invariant. */
  lemma FirstFree(s: Phys, addr: Word, ds: set<FrameNo>)
    requires System(s.(free := [addr] + s.free), ds)
    ensures addr % 4096 == 0 && addr !in s.free && !Structural(s.mem, ds, FrameOf(addr))
  {
    var s' := s.(free := [addr] + s.free);
    assert s'.free[0] == addr;
    forall k | 0 <= k < |s.free|
      ensures s.free[k] != addr
    {
      assert s'.free[k + 1] == s.free[k];
    }
  }

  /** Only the table that is released stops being one. */
  lemma ReleasedOrKept(s: Phys, ds: set<FrameNo>, d: FrameNo, p: PageNo, f: FrameNo)
    requires System(s, ds) && d in ds && p / 1024 != WINDOW && Translate(s.mem, d, p) != None
    requires Structural(s.mem, ds, f) && (Empties(s.mem, d, p) ==> f != FrameOf(s.mem[d][p / 1024]))
    ensures Structural(UnmapPage(s, d, p).mem, ds, f)
  {
    if Empties(s.mem, d, p) {
      var m, m' := ReleasedSlot(s, ds, d, p);
      SlotSetKeepsSlots(m, m', ds, d, p / 1024, 0, f);
    } else {
      ClearedLeaf(s, ds, d, p);
    }
  }

  /** A frame that is given back must not be free or hold a table, also not the one just released. */
  lemma GivenBackOwn(s: Phys, ds: set<FrameNo>, d: FrameNo, p: PageNo)
    requires System(s, ds) && d in ds && p / 1024 != WINDOW && Translate(s.mem, d, p) != None
    requires System(FreePage(s, d, p), ds)
    ensures OwnFrame(s, ds, d, p)
  {
    var addr, table := Address(Leaf(s.mem, d, p)), Address(s.mem[d][p / 1024]);
    FreedFrames(s, ds, d, p);
    FirstFree(UnmapPage(s, d, p), addr, ds);
    if Empties(s.mem, d, p) {
      assert addr !in [table] + s.free;
      AlignedBase(addr);
      AlignedBase(table);
    }
    if Structural(s.mem, ds, FrameOf(addr)) {
      ReleasedOrKept(s, ds, d, p, FrameOf(addr));
    }
  }

  /** kpfree keeps the invariant if and only if the page was not mapped, or had a frame of its own and
      empties no table that another space reaches. */
  lemma FreeKeepsSystem(s: Phys, ds: set<FrameNo>, d: FrameNo, p: PageNo)
    requires System(s, ds) && d in ds && p / 1024 != WINDOW
    ensures System(FreePage(s, d, p), ds) <==> OwnFrame(s, ds, d, p) && Releasable(s.mem, ds, d, p)
  {
    UnmapKeepsSystem(s, ds, d, p);
    if Translate(s.mem, d, p) != None {
      var t, addr := UnmapPage(s, d, p), Address(Leaf(s.mem, d, p));
      FreedFrames(s, ds, d, p);
      if System(FreePage(s, d, p), ds) {
        GivenBackOwn(s, ds, d, p);
        WithoutFirst(t, addr, ds);
      } else if OwnFrame(s, ds, d, p) && System(t, ds) {
        if Structural(t.mem, ds, FrameOf(addr)) {
          UnmapStructural(s, ds, d, p, FrameOf(addr));
        }
        PushFree(t, ds, addr);
      }
    }
  }

  /** Equal but for the low byte, and equal in bit 0: the same entry to the processor. */
  lemma SameEntry(e: Word, e': Word)
    requires e / 256 == e' / 256 && e % 2 == e' % 2
    ensures Present(e) == Present(e') && FrameOf(e) == FrameOf(e')
    ensures e % 4096 < 256 <==> e' % 4096 < 256
  {
    DivMod(e, 4096, e / 256 / 16, 256 * (e / 256 % 16) + e % 256);
    DivMod(e', 4096, e / 256 / 16, 256 * (e / 256 % 16) + e' % 256);
  }

  /** The same entries everywhere, to the processor and to what the kernel reads back of a directory. */
  ghost predicate SameEntries(m: Memory, m': Memory)
  {
    forall g: FrameNo, j: Index ::
      && Present(m'[g][j]) == Present(m[g][j]) && FrameOf(m'[g][j]) == FrameOf(m[g][j])
      && (m'[g][j] % 4096 < 256 <==> m[g][j] % 4096 < 256)
  }

  lemma MarkSame(m: Memory, f: FrameNo, k: Index, flag: Byte)
    requires flag == ACCESSED || flag == DIRTY
    ensures SameEntries(m, Poke(m, f, k, Mark(m[f][k], flag)))
  {
    SameEntry(m[f][k], Mark(m[f][k], flag));
  }

  lemma WalkedSame(m: Memory, d: FrameNo, p: PageNo, write: bool)
    ensures SameEntries(m, Walked(m, d, p, write))
  {
    var m1 := Poke(m, d, p / 1024, Mark(m[d][p / 1024], ACCESSED));
    var f := FrameOf(m1[d][p / 1024]);
    var m2 := Poke(m1, f, p % 1024, Mark(m1[f][p % 1024], ACCESSED));
    MarkSame(m, d, p / 1024, ACCESSED);
    MarkSame(m1, f, p % 1024, ACCESSED);
    MarkSame(m2, f, p % 1024, DIRTY);
    var m' := Walked(m, d, p, write);
    forall g: FrameNo, j: Index
      ensures Present(m'[g][j]) == Present(m[g][j]) && FrameOf(m'[g][j]) == FrameOf(m[g][j])
      ensures m'[g][j] % 4096 < 256 <==> m[g][j] % 4096 < 256
    {
      assert Present(m1[g][j]) == Present(m[g][j]) && Present(m2[g][j]) == Present(m1[g][j]);
    }
  }

  lemma SameTranslations(m: Memory, m': Memory)
    requires SameEntries(m, m')
    ensures forall d: FrameNo, q: PageNo :: Translate(m', d, q) == Translate(m, d, q)
  {
  }

  /** An access by the processor, which sets flags in the entries of its walk, changes no translation, its own
      included, and keeps the invariant. */
  lemma WalkedKeepsSystem(s: Phys, ds: set<FrameNo>, d: FrameNo, p: PageNo, write: bool)
    requires System(s, ds)
    ensures System(s.(mem := Walked(s.mem, d, p, write)), ds)
    ensures forall d': FrameNo, q: PageNo :: Translate(Walked(s.mem, d, p, write), d', q) == Translate(s.mem, d', q)
  {
    var m' := Walked(s.mem, d, p, write);
    WalkedSame(s.mem, d, p, write);
    SameTranslations(s.mem, m');
    assert forall e: FrameNo, i: Index :: Slot(m', e, i) == Slot(s.mem, e, i);
    forall e | e in ds
      ensures Space(m', e)
    {
      assert Space(s.mem, e);
    }
    forall e, e' | e in ds && e' in ds
      ensures Apart(m', e, e')
    {
      assert Apart(s.mem, e, e');
    }
  }

  /** What map would take for a table, if it needs one, has no present bit set but perhaps in the leaf
      it writes. map itself does not clear the frame. */
  ghost predicate ClearForTable(s: Phys, d: FrameNo, p: PageNo)
    requires Slot(s.mem, d, p / 1024).Some? || s.free != []
  {
    Slot(s.mem, d, p / 1024).Some? || forall k: Index :: k != p % 1024 ==> !Present(s.mem[FrameOf(s.free[0])][k])
  }

  lemma AddTableTranslates(s: Phys, ds: set<FrameNo>, d: FrameNo, i: Index, x: Word, q: PageNo)
    requires System(s, ds) && d in ds && i != WINDOW && Slot(s.mem, d, i) == None && NamesFirstFree(s, x)
    requires q / 1024 != WINDOW
    ensures var w := s.mem[FrameOf(x)][q % 1024];
            Translate(AddTable(s, d, i, x).mem, d, q) ==
            if q / 1024 != i then Translate(s.mem, d, q) else if Present(w) then Some(FrameOf(w)) else None
  {
    var s' := AddTable(s, d, i, x);
    AddTableKeepsSystem(s, ds, d, i, x);
    if q / 1024 != i {
      var m1 := Poke(s.mem, TablesOf(s.mem, d), i, x);
      assert Tree(s.mem, d) by { assert Space(s.mem, d); }
      PokeLeaf(s.mem, d, WINDOW, i, x, q);
      assert forall k: Index :: Slot(m1, d, k) == Slot(s.mem, d, k);
      PokeSlot(m1, d, i, x, q);
    }
  }

  lemma MapTranslates(s: Phys, ds: set<FrameNo>, d: FrameNo, p: PageNo, addr: Word, flags: Byte, q: PageNo)
    requires System(s, ds) && d in ds && p / 1024 != WINDOW && q / 1024 != WINDOW && flags % 2 == 1
    requires Slot(s.mem, d, p / 1024).Some? || s.free != []
    ensures Translate(MapPage(s, d, p, addr, flags).mem, d, q) ==
            if q == p then Some(FrameOf(addr))
            else if Slot(s.mem, d, p / 1024).Some? || q / 1024 != p / 1024 then Translate(s.mem, d, q)
            else var w := s.mem[FrameOf(s.free[0])][q % 1024]; if Present(w) then Some(FrameOf(w)) else None
  {
    var e := PtEntry(addr, flags);
    assert Present(e) && FrameOf(e) == FrameOf(addr) by { ReadBack(addr, flags); }
    var s1 := s;
    if Slot(s.mem, d, p / 1024) == None {
      var x := PtEntry(s.free[0], flags);
      EntryNamesFirstFree(s, ds, flags);
      AddTableKeepsSystem(s, ds, d, p / 1024, x);
      AddTableTranslates(s, ds, d, p / 1024, x, q);
      s1 := AddTable(s, d, p / 1024, x);
    }
    assert Space(s1.mem, d);
    PokeLeaf(s1.mem, d, p / 1024, p % 1024, e, q);
  }

  /** map refines the update of one page-to-frame entry if and only if no other word of a frame it
      takes for a table has its present bit set. */
  lemma MapRefinesUpdate(s: Phys, ds: set<FrameNo>, d: FrameNo, p: PageNo, addr: Word, flags: Byte)
    requires System(s, ds) && d in ds && p / 1024 != WINDOW && flags % 2 == 1
    requires Slot(s.mem, d, p / 1024).Some? || s.free != []
    ensures (forall q: PageNo | q / 1024 != WINDOW ::
               Translate(MapPage(s, d, p, addr, flags).mem, d, q) == if q == p then Some(FrameOf(addr))
                 else Translate(s.mem, d, q))
            <==> ClearForTable(s, d, p)
  {
    forall q: PageNo | q / 1024 != WINDOW {
      MapTranslates(s, ds, d, p, addr, flags, q);
    }
    if !ClearForTable(s, d, p) {
      var k: Index :| k != p % 1024 && Present(s.mem[FrameOf(s.free[0])][k]);
      var q := PageAt(p / 1024, k);
      assert q / 1024 == p / 1024 && q % 1024 == k;
      MapTranslates(s, ds, d, p, addr, flags, q);
    }
  }

  /** kpfree and kpfree_virtual refine the removal of one page-to-frame entry. */
  lemma UnmapRefinesRemoval(s: Phys, ds: set<FrameNo>, d: FrameNo, p: PageNo, q: PageNo)
    requires System(s, ds) && d in ds && p / 1024 != WINDOW && q / 1024 != WINDOW
    ensures Translate(UnmapPage(s, d, p).mem, d, q) == if q == p then None else Translate(s.mem, d, q)
    ensures Translate(FreePage(s, d, p).mem, d, q) == Translate(UnmapPage(s, d, p).mem, d, q)
  {
    assert Space(s.mem, d);
    if Translate(s.mem, d, p) != None {
      var i := p / 1024;
      var s1 := s.(mem := Poke(s.mem, FrameOf(s.mem[d][i]), p % 1024, 0));
      PokeLeaf(s.mem, d, i, p % 1024, 0, q);
      if Empty(s1.mem[FrameOf(s.mem[d][i])]) {
        assert forall k: Index :: Slot(s1.mem, d, k) == Slot(s.mem, d, k);
        DropTableTranslates(s1, d, i, q);
      }
    }
  }

  lemma DropTableTranslates(s: Phys, d: FrameNo, i: Index, q: PageNo)
    requires Tree(s.mem, d) && Slot(s.mem, d, WINDOW).Some? && i != WINDOW && q / 1024 != WINDOW
    requires Slot(s.mem, d, i).Some? && Empty(s.mem[FrameOf(s.mem[d][i])])
    ensures Translate(DropTable(s, d, i).mem, d, q) == Translate(s.mem, d, q)
  {
    var m1 := Poke(s.mem, d, i, 0);
    PokeSlot(s.mem, d, i, 0, q);
    assert forall k: Index | k != i :: Slot(m1, d, k) == Slot(s.mem, d, k);
    assert Slot(m1, d, i) == None;
    PokeLeaf(m1, d, WINDOW, i, 0, q);
  }
}
