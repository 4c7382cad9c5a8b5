/** copy_page_directory as a transformation of physical memory, and what the new space translates. */
module AddressSpaces {
  import opened Words
  import opened Mmu
  import opened PageTables

  /** The address the kernel reads back for a page: virtual2physical, 0 for a page that is not mapped. */
  function PhysicalAddress(m: Memory, d: FrameNo, p: PageNo): Word
  {
    if Translate(m, d, p).Some? then Address(Leaf(m, d, p)) else 0
  }

  /** Frame `f` is neither the directory nor a table of the space of `d`. */
  ghost predicate Outside(m: Memory, d: FrameNo, f: FrameNo)
  {
    f != d && forall i: Index :: Slot(m, d, i) != Some(f)
  }

  lemma PokeOutside(m: Memory, d: FrameNo, f: FrameNo, content: Frame)
    requires Outside(m, d, f)
    ensures Outside(m[f := content], d, f) && Lost(m, m[f := content], d) == {}
    ensures forall q: PageNo :: Translate(m[f := content], d, q) == Translate(m, d, q)
  {
    var m' := m[f := content];
    assert forall i: Index :: Slot(m', d, i) == Slot(m, d, i);
    forall q: PageNo
      ensures Translate(m', d, q) == Translate(m, d, q)
    {
      if Slot(m, d, q / 1024).Some? {
        assert Slot(m, d, q / 1024) == Some(FrameOf(m[d][q / 1024])) && Slot(m, d, q / 1024) != Some(f);
      }
    }
  }

  /** The spaces in `ds` see the same pages in the same places. */
  ghost predicate SameView(m: Memory, m': Memory, ds: set<FrameNo>)
  {
    forall d, q: PageNo | d in ds ::
      Translate(m', d, q) == Translate(m, d, q) && PhysicalAddress(m', d, q) == PhysicalAddress(m, d, q)
  }

  /** Writing a frame that holds no directory and no table leaves every space as it was. */
  lemma WriteSpare(s: Phys, ds: set<FrameNo>, f: FrameNo, content: Frame)
    requires System(s, ds) && !Structural(s.mem, ds, f)
    ensures System(s.(mem := s.mem[f := content]), ds)
    ensures forall g: FrameNo :: Structural(s.mem[f := content], ds, g) == Structural(s.mem, ds, g)
    ensures forall d | d in ds :: Outside(s.mem, d, f)
    ensures SameView(s.mem, s.mem[f := content], ds)
  {
    var m' := s.mem[f := content];
    forall d | d in ds
      ensures Outside(s.mem, d, f) && m'[d] == s.mem[d] && m'[TablesOf(s.mem, d)] == s.mem[TablesOf(s.mem, d)]
    {
      assert Space(s.mem, d);
      assert Slot(s.mem, d, WINDOW) == Some(TablesOf(s.mem, d));
    }
    SameDirectories(s.mem, m', ds);
    forall d, q: PageNo | d in ds
      ensures Translate(m', d, q) == Translate(s.mem, d, q) && PhysicalAddress(m', d, q) == PhysicalAddress(s.mem, d, q)
    {
      PokeOutside(s.mem, d, f, content);
      assert Slot(s.mem, d, q / 1024).Some? ==> Slot(s.mem, d, q / 1024) == Some(FrameOf(s.mem[d][q / 1024]));
    }
  }

  /** The pages copied from the source space: 0x80000000 to 0xF0000000, that address included. */
  predicate Copied(p: PageNo) { 0x8_0000 <= p <= 0xF_0000 }

  /** The entry that maps frame `w` at slot 1023 of the directory whose window table it is. */
  function WindowEntry(w: FrameNo): (x: Word)
    ensures Present(x) && FrameOf(x) == w && x % 4096 < 256 && x == 4096 * (w as int) + 3
  {
    var base: Word := 4096 * (w as int);
    PtEntry(base, PAGE_PRESENT + PAGE_RW)
  }

  /** A directory in frame `n` with its window table in frame `w`, both copied from the kernel's. */
  function NewSpace(m: Memory, kernel: FrameNo, n: FrameNo, w: FrameNo): Memory
  {
    m[n := m[kernel][WINDOW := WindowEntry(w)]][w := m[TablesOf(m, kernel)][WINDOW := WindowEntry(w)]]
  }

  /** Two frames that hold no directory, no table and are not free. */
  ghost predicate Spare(s: Phys, ds: set<FrameNo>, n: FrameNo, w: FrameNo)
  {
    && n != w && !Structural(s.mem, ds, n) && !Structural(s.mem, ds, w)
    && forall k | 0 <= k < |s.free| :: FrameOf(s.free[k]) != n && FrameOf(s.free[k]) != w
  }

  lemma NewSpaceSlots(s: Phys, ds: set<FrameNo>, kernel: FrameNo, n: FrameNo, w: FrameNo, d: FrameNo, i: Index)
    requires Spaces(s.mem, ds) && kernel in ds && Spare(s, ds, n, w) && d in ds + {n}
    ensures var m := NewSpace(s.mem, kernel, n, w);
            && Slot(m, d, i) == (if d == n then (if i == WINDOW then Some(w) else Slot(s.mem, kernel, i))
               else Slot(s.mem, d, i))
            && (d != n ==> m[d] == s.mem[d] && m[TablesOf(s.mem, d)] == s.mem[TablesOf(s.mem, d)])
  {
    if d != n {
      assert Space(s.mem, d);
      assert Slot(s.mem, d, WINDOW) == Some(TablesOf(s.mem, d));
      assert Slot(s.mem, d, WINDOW) != Some(n) && Slot(s.mem, d, WINDOW) != Some(w);
    }
  }

  /** The slots of a new space beside the old ones: the kernel's, but for its own window table. */
  ghost predicate NewSlots(m: Memory, m': Memory, ds: set<FrameNo>, kernel: FrameNo, n: FrameNo, w: FrameNo)
  {
    && kernel in ds && n != w && !Structural(m, ds, n) && !Structural(m, ds, w)
    && (forall d, i: Index | d in ds :: Slot(m', d, i) == Slot(m, d, i))
    && (forall i: Index :: Slot(m', n, i) == if i == WINDOW then Some(w) else Slot(m, kernel, i))
  }

  lemma NewSlotShared(m: Memory, m': Memory, ds: set<FrameNo>, kernel: FrameNo, n: FrameNo, w: FrameNo,
          d: FrameNo, d': FrameNo, i: Index, k: Index)
    requires Spaces(m, ds) && NewSlots(m, m', ds, kernel, n, w)
    requires d in ds + {n} && d' in ds + {n} && Slot(m', d, i).Some?
    ensures Slot(m', d, i) != Some(d')
    ensures Slot(m', d, i) == Slot(m', d', k) ==> i == k && (i == WINDOW ==> d == d')
  {
    var o, o' := if d == n then kernel else d, if d' == n then kernel else d';
    assert Apart(m, o, o');
    assert Slot(m, o, i) != Some(n) && Slot(m, o', k) != Some(n);
    assert Slot(m, o, i) != Some(w) && Slot(m, o', k) != Some(w);
  }

  lemma SpacesOf(m: Memory, m': Memory, ds: set<FrameNo>, kernel: FrameNo, n: FrameNo, w: FrameNo)
    requires Spaces(m, ds) && NewSlots(m, m', ds, kernel, n, w)
    requires forall d | d in ds + {n} :: Space(m', d)
    ensures Spaces(m', ds + {n})
  {
    forall d, d', i: Index, k: Index | d in ds + {n} && d' in ds + {n} && Slot(m', d, i).Some?
      ensures Slot(m', d, i) != Some(d')
      ensures Slot(m', d, i) == Slot(m', d', k) ==> i == k && (i == WINDOW ==> d == d')
    {
      NewSlotShared(m, m', ds, kernel, n, w, d, d', i, k);
    }
  }

  lemma NewSpaceKeepsSpaces(s: Phys, ds: set<FrameNo>, kernel: FrameNo, n: FrameNo, w: FrameNo)
    requires Spaces(s.mem, ds) && kernel in ds && Spare(s, ds, n, w)
    ensures Spaces(NewSpace(s.mem, kernel, n, w), ds + {n})
  {
    var m := NewSpace(s.mem, kernel, n, w);
    forall d, i: Index | d in ds + {n}
      ensures Slot(m, d, i) == if d == n then (if i == WINDOW then Some(w) else Slot(s.mem, kernel, i))
        else Slot(s.mem, d, i)
    {
      NewSpaceSlots(s, ds, kernel, n, w, d, i);
    }
    forall d | d in ds + {n}
      ensures Space(m, d)
    {
      assert Space(s.mem, kernel);
      if d == n {
        assert forall i: Index :: Slot(s.mem, kernel, i) != Some(n) && Slot(s.mem, kernel, i) != Some(w);
      } else {
        assert Space(s.mem, d);
        NewSpaceSlots(s, ds, kernel, n, w, d, WINDOW);
      }
    }
    SpacesOf(s.mem, m, ds, kernel, n, w);
  }

  /** The new directory satisfies the self-map invariant together with all that were there. */
  lemma NewSpaceKeepsSystem(s: Phys, ds: set<FrameNo>, kernel: FrameNo, n: FrameNo, w: FrameNo)
    requires System(s, ds) && kernel in ds && Spare(s, ds, n, w)
    ensures System(s.(mem := NewSpace(s.mem, kernel, n, w)), ds + {n})
  {
    NewSpaceKeepsSpaces(s, ds, kernel, n, w);
    forall k | 0 <= k < |s.free|
      ensures !Structural(NewSpace(s.mem, kernel, n, w), ds + {n}, FrameOf(s.free[k]))
    {
      assert !Structural(s.mem, ds, FrameOf(s.free[k]));
      forall d, i: Index | d in ds + {n}
        ensures Slot(NewSpace(s.mem, kernel, n, w), d, i) != Some(FrameOf(s.free[k]))
      {
        NewSpaceSlots(s, ds, kernel, n, w, d, i);
      }
    }
  }

  /** The new space starts with the kernel's translations, and no other space changes. */
  lemma NewSpaceTranslates(s: Phys, ds: set<FrameNo>, kernel: FrameNo, n: FrameNo, w: FrameNo, d: FrameNo, q: PageNo)
    requires System(s, ds) && kernel in ds && Spare(s, ds, n, w) && d in ds && q / 1024 != WINDOW
    ensures Translate(NewSpace(s.mem, kernel, n, w), d, q) == Translate(s.mem, d, q)
    ensures PhysicalAddress(NewSpace(s.mem, kernel, n, w), d, q) == PhysicalAddress(s.mem, d, q)
    ensures Translate(NewSpace(s.mem, kernel, n, w), n, q) == Translate(s.mem, kernel, q)
  {
    NewSpaceSlots(s, ds, kernel, n, w, d, q / 1024);
    NewSpaceSlots(s, ds, kernel, n, w, n, q / 1024);
    assert forall d', i: Index | d' in ds :: Slot(s.mem, d', i) != Some(n) && Slot(s.mem, d', i) != Some(w);
    assert Slot(s.mem, d, q / 1024).Some? ==> Slot(s.mem, d, q / 1024) == Some(FrameOf(s.mem[d][q / 1024]));
    assert Slot(s.mem, kernel, q / 1024).Some? ==>
      Slot(s.mem, kernel, q / 1024) == Some(FrameOf(s.mem[kernel][q / 1024]));
  }

  /** A leaf written in one space shows in another exactly if they share the table of that slot. */
  lemma PokeShared(m: Memory, ds: set<FrameNo>, d: FrameNo, d': FrameNo, i: Index, j: Index, x: Word, q: PageNo)
    requires Spaces(m, ds) && d in ds && d' in ds && i != WINDOW && Slot(m, d, i).Some? && q / 1024 != WINDOW
    ensures var m' := Poke(m, FrameOf(m[d][i]), j, x);
            if q == PageAt(i, j) && Slot(m, d', i) == Slot(m, d, i)
            then Translate(m', d', q) == (if Present(x) then Some(FrameOf(x)) else None)
              && PhysicalAddress(m', d', q) == (if Present(x) then Address(x) else 0)
            else Translate(m', d', q) == Translate(m, d', q) && PhysicalAddress(m', d', q) == PhysicalAddress(m, d', q)
  {
    var m' := Poke(m, FrameOf(m[d][i]), j, x);
    assert Apart(m, d, d');
    assert Slot(m, d, i) == Some(FrameOf(m[d][i])) && Slot(m, d, i) != Some(d');
    assert Slot(m', d', q / 1024) == Slot(m, d', q / 1024);
    assert Slot(m, d', q / 1024).Some? ==> Slot(m, d', q / 1024) == Some(FrameOf(m[d'][q / 1024]));
    if Slot(m, d, i) == Slot(m, d', q / 1024) {
      assert i == q / 1024;
    }
  }

  /** map in one space changes another space only in the same page, through a shared table. */
  lemma MapInOther(s: Phys, ds: set<FrameNo>, d: FrameNo, d': FrameNo, p: PageNo, addr: Word, flags: Byte, q: PageNo)
    requires System(s, ds) && d in ds && d' in ds && d' != d && p / 1024 != WINDOW && q / 1024 != WINDOW
    requires flags % 2 == 1
    requires Slot(s.mem, d, p / 1024).Some? || s.free != []
    ensures var m' := MapPage(s, d, p, addr, flags).mem;
            if q == p && Slot(s.mem, d, p / 1024).Some? && Slot(s.mem, d', p / 1024) == Slot(s.mem, d, p / 1024)
            then Translate(m', d', q) == Some(FrameOf(addr)) && PhysicalAddress(m', d', q) == Address(addr)
            else
              && Translate(m', d', q) == Translate(s.mem, d', q)
              && PhysicalAddress(m', d', q) == PhysicalAddress(s.mem, d', q)
  {
    var i := p / 1024;
    var e := PtEntry(addr, flags);
    assert Present(e) && FrameOf(e) == FrameOf(addr) && Address(e) == Address(addr) by { ReadBack(addr, flags); }
    var s1 := s;
    if Slot(s.mem, d, i) == None {
      var x := PtEntry(s.free[0], flags);
      EntryNamesFirstFree(s, ds, flags);
      AddTableKeepsSystem(s, ds, d, i, x);
      s1 := AddTable(s, d, i, x);
      AddTableInOther(s, ds, d, d', i, x, q);
    }
    PokeShared(s1.mem, ds, d, d', i, p % 1024, e, q);
  }

  lemma AddTableInOther(s: Phys, ds: set<FrameNo>, d: FrameNo, d': FrameNo, i: Index, x: Word, q: PageNo)
    requires System(s, ds) && d in ds && d' in ds && d' != d && i != WINDOW && q / 1024 != WINDOW
    requires Slot(s.mem, d, i) == None && NamesFirstFree(s, x)
    ensures var m' := AddTable(s, d, i, x).mem;
            && m'[d'] == s.mem[d'] && Slot(m', d', i) != Some(FrameOf(x)) && Slot(m', d, i) == Some(FrameOf(x))
            && Translate(m', d', q) == Translate(s.mem, d', q)
               && PhysicalAddress(m', d', q) == PhysicalAddress(s.mem, d', q)
  {
    AddTableKeepsSystem(s, ds, d, i, x);
    var m' := AddTable(s, d, i, x).mem;
    var f := FrameOf(x);
    assert !Structural(s.mem, ds, FrameOf(s.free[0]));
    assert Slot(s.mem, d', i) != Some(f);
    assert Space(s.mem, d) && Apart(s.mem, d', d) && Apart(s.mem, d, d');
    assert Slot(s.mem, d, WINDOW) == Some(TablesOf(s.mem, d));
    assert m'[d'] == s.mem[d'];
    assert Slot(m', d', q / 1024) == Slot(s.mem, d', q / 1024);
    if Slot(s.mem, d', q / 1024).Some? {
      assert Slot(s.mem, d', q / 1024) == Some(FrameOf(s.mem[d'][q / 1024]));
      assert Slot(s.mem, d', q / 1024) != Slot(s.mem, d, WINDOW) && Slot(s.mem, d', q / 1024) != Some(d);
    }
  }

  /** In the space itself: the address read back for every page, when the table is clear. */
  lemma MapReadBack(s: Phys, ds: set<FrameNo>, d: FrameNo, p: PageNo, addr: Word, flags: Byte, q: PageNo)
    requires System(s, ds) && d in ds && p / 1024 != WINDOW && q / 1024 != WINDOW && flags % 2 == 1
    requires Slot(s.mem, d, p / 1024).Some? || s.free != []
    requires ClearForTable(s, d, p)
    ensures PhysicalAddress(MapPage(s, d, p, addr, flags).mem, d, q) == if q == p then Address(addr)
      else PhysicalAddress(s.mem, d, q)
  {
    var i := p / 1024;
    var e := PtEntry(addr, flags);
    assert Present(e) && Address(e) == Address(addr) by { ReadBack(addr, flags); }
    var s1 := s;
    if Slot(s.mem, d, i) == None {
      var x := PtEntry(s.free[0], flags);
      EntryNamesFirstFree(s, ds, flags);
      AddTableKeepsSystem(s, ds, d, i, x);
      AddTableReadBack(s, ds, d, i, x, q);
      s1 := AddTable(s, d, i, x);
    }
    PokeShared(s1.mem, ds, d, d, i, p % 1024, e, q);
  }

  lemma AddTableReadBack(s: Phys, ds: set<FrameNo>, d: FrameNo, i: Index, x: Word, q: PageNo)
    requires System(s, ds) && d in ds && i != WINDOW && q / 1024 != WINDOW && Slot(s.mem, d, i) == None
    requires NamesFirstFree(s, x)
    ensures var m', w := AddTable(s, d, i, x).mem, s.mem[FrameOf(x)][q % 1024];
            PhysicalAddress(m', d, q) == if q / 1024 != i then PhysicalAddress(s.mem, d, q) else if Present(w)
              then Address(w) else 0
  {
    AddTableKeepsSystem(s, ds, d, i, x);
    AddTableTranslates(s, ds, d, i, x, q);
    var m' := AddTable(s, d, i, x).mem;
    assert Space(s.mem, d);
    if q / 1024 != i && Slot(s.mem, d, q / 1024).Some? {
      assert Slot(s.mem, d, q / 1024) == Some(FrameOf(s.mem[d][q / 1024]));
      assert Slot(s.mem, d, q / 1024) != Slot(s.mem, d, WINDOW) && Slot(s.mem, d, q / 1024) != Some(d);
    }
  }

  lemma UnmapReadBack(s: Phys, ds: set<FrameNo>, d: FrameNo, p: PageNo, q: PageNo)
    requires System(s, ds) && d in ds && p / 1024 != WINDOW && q / 1024 != WINDOW
    ensures PhysicalAddress(UnmapPage(s, d, p).mem, d, q) == if q == p then 0 else PhysicalAddress(s.mem, d, q)
  {
    UnmapRefinesRemoval(s, ds, d, p, q);
    if Translate(s.mem, d, p) != None {
      var i := p / 1024;
      var s1 := s.(mem := Poke(s.mem, FrameOf(s.mem[d][i]), p % 1024, 0));
      assert Space(s.mem, d);
      PokeShared(s.mem, ds, d, d, i, p % 1024, 0, q);
      assert forall k: Index :: Slot(s1.mem, d, k) == Slot(s.mem, d, k);
      if Slot(s.mem, d, q / 1024).Some? {
        assert Slot(s.mem, d, q / 1024) == Some(FrameOf(s.mem[d][q / 1024]));
        assert Slot(s.mem, d, q / 1024) != Slot(s.mem, d, WINDOW) && Slot(s.mem, d, q / 1024) != Some(d);
      }
    }
  }

  const COPY_FLAGS: Byte := PAGE_PRESENT + PAGE_RW + PAGE_USER

  /** One turn of copy_page_directory's loop: a page the source space maps is mapped in the new one.
      None is the out-of-memory panic. */
  function CopyPage(s: Phys, src: FrameNo, n: FrameNo, q: PageNo): Option<Phys>
  {
    var addr := PhysicalAddress(s.mem, src, q);
    if !Copied(q) || addr == 0 then Some(s)
    else if Slot(s.mem, n, q / 1024) == None && s.free == [] then None
    else Some(MapPage(s, n, q, addr, COPY_FLAGS))
  }

  lemma CopyPageMaps(s: Phys, src: FrameNo, n: FrameNo, q: PageNo)
    requires Copied(q) && PhysicalAddress(s.mem, src, q) != 0
    ensures CopyPage(s, src, n, q) == if Slot(s.mem, n, q / 1024) == None && s.free == [] then None
                                      else Some(MapPage(s, n, q, PhysicalAddress(s.mem, src, q), COPY_FLAGS))
  {
  }

  /** The pages below `k` have been visited. */
  function CopyPages(s: Phys, src: FrameNo, n: FrameNo, k: nat): Option<Phys>
    requires k <= 1023 * 1024
  {
    if k == 0 then Some(s)
    else
      match CopyPages(s, src, n, k - 1)
      case None => None
      case Some(t) => CopyPage(t, src, n, k - 1)
  }

  lemma {:induction false} CopyPagesNext(s: Phys, src: FrameNo, n: FrameNo, k: nat)
    requires k < 1023 * 1024 && CopyPages(s, src, n, k).Some?
    ensures CopyPages(s, src, n, k + 1) == CopyPage(CopyPages(s, src, n, k).value, src, n, k)
  {
  }

  /** The last turn that led to the state after `k` pages. */
  lemma {:induction false} CopyPagesLast(s: Phys, src: FrameNo, n: FrameNo, k: nat) returns (t: Phys, p: PageNo)
    requires 0 < k <= 1023 * 1024 && CopyPages(s, src, n, k).Some?
    ensures p == k - 1 && p / 1024 != WINDOW && CopyPages(s, src, n, p) == Some(t)
    ensures CopyPages(s, src, n, k) == CopyPage(t, src, n, p)
  {
    t, p := CopyPages(s, src, n, k - 1).value, k - 1;
  }

  lemma {:induction false} CopyPagesStop(s: Phys, src: FrameNo, n: FrameNo, k: nat, l: nat)
    requires k <= l <= 1023 * 1024 && CopyPages(s, src, n, k) == None
    ensures CopyPages(s, src, n, l) == None
  {
    if k < l {
      CopyPagesStop(s, src, n, k, l - 1);
    }
  }

  /** Every free frame is zero-filled. */
  ghost predicate FreeClear(s: Phys)
  {
    forall k | 0 <= k < |s.free| :: Empty(s.mem[FrameOf(s.free[k])])
  }

  lemma MapKeepsClear(s: Phys, ds: set<FrameNo>, d: FrameNo, p: PageNo, addr: Word, flags: Byte)
    requires System(s, ds) && d in ds && p / 1024 != WINDOW && flags % 2 == 1 && FreeClear(s)
    requires Slot(s.mem, d, p / 1024).Some? || s.free != []
    ensures FreeClear(MapPage(s, d, p, addr, flags)) && ClearForTable(s, d, p)
  {
    var i := p / 1024;
    var s' := MapPage(s, d, p, addr, flags);
    assert Space(s.mem, d);
    if s.free != [] { EntryNamesFirstFree(s, ds, flags); }
    forall k | 0 <= k < |s'.free|
      ensures s'.mem[FrameOf(s'.free[k])] == s.mem[FrameOf(s'.free[k])]
    {
      var n := if Slot(s.mem, d, i).Some? then k else k + 1;
      assert s'.free[k] == s.free[n];
      assert !Structural(s.mem, ds, FrameOf(s.free[n]));
      assert Slot(s.mem, d, WINDOW) == Some(TablesOf(s.mem, d));
      if Slot(s.mem, d, i) == None {
        PopFree(s, ds);
        AddTableKeepsSystem(s, ds, d, i, PtEntry(s.free[0], flags));
      } else {
        assert Slot(s.mem, d, i) == Some(FrameOf(s.mem[d][i]));
      }
    }
  }

  lemma CopyPageKeepsSystem(s: Phys, ds: set<FrameNo>, src: FrameNo, n: FrameNo, p: PageNo)
    requires System(s, ds) && src in ds && n in ds && p / 1024 != WINDOW && CopyPage(s, src, n, p).Some?
    ensures System(CopyPage(s, src, n, p).value, ds)
    ensures FreeClear(s) ==> FreeClear(CopyPage(s, src, n, p).value)
  {
    var addr := PhysicalAddress(s.mem, src, p);
    if Copied(p) && addr != 0 {
      MapKeepsSystem(s, ds, n, p, addr, COPY_FLAGS);
      if FreeClear(s) {
        MapKeepsClear(s, ds, n, p, addr, COPY_FLAGS);
      }
    }
  }

  lemma CopyPageInOther(s: Phys, ds: set<FrameNo>, src: FrameNo, n: FrameNo, p: PageNo, d: FrameNo, q: PageNo)
    requires System(s, ds) && src in ds && n in ds && d in ds && d != n && src != n
    requires p / 1024 != WINDOW && q / 1024 != WINDOW && CopyPage(s, src, n, p).Some? && (d == src || !Copied(q))
    ensures var t := CopyPage(s, src, n, p).value;
            Translate(t.mem, d, q) == Translate(s.mem, d, q)
              && PhysicalAddress(t.mem, d, q) == PhysicalAddress(s.mem, d, q)
  {
    var addr := PhysicalAddress(s.mem, src, p);
    if Copied(p) && addr != 0 {
      MapInOther(s, ds, n, d, p, addr, COPY_FLAGS, q);
      FrameOfAddress(Leaf(s.mem, src, p));
      LowByte(Leaf(s.mem, src, p) / 256, 0);
    }
  }

  lemma CopyPageTranslates(s: Phys, ds: set<FrameNo>, src: FrameNo, n: FrameNo, p: PageNo, q: PageNo)
    requires System(s, ds) && src in ds && n in ds && src != n && FreeClear(s)
    requires p / 1024 != WINDOW && q / 1024 != WINDOW && CopyPage(s, src, n, p).Some?
    ensures Translate(CopyPage(s, src, n, p).value.mem, n, q) ==
            if q == p && Copied(p) && PhysicalAddress(s.mem, src, p) != 0 then Translate(s.mem, src, p)
              else Translate(s.mem, n, q)
  {
    var addr := PhysicalAddress(s.mem, src, p);
    if Copied(p) && addr != 0 {
      MapTranslates(s, ds, n, p, addr, COPY_FLAGS, q);
      MapKeepsClear(s, ds, n, p, addr, COPY_FLAGS);
      FrameOfAddress(Leaf(s.mem, src, p));
    }
  }

  /** A page outside the copied range that the new space already has stays as it is. */
  lemma CopyPageKeepsMapped(s: Phys, ds: set<FrameNo>, src: FrameNo, n: FrameNo, p: PageNo, q: PageNo)
    requires System(s, ds) && src in ds && n in ds && src != n && CopyPage(s, src, n, p).Some?
    requires p / 1024 != WINDOW && q / 1024 != WINDOW && !Copied(q) && Translate(s.mem, n, q).Some?
    ensures Translate(CopyPage(s, src, n, p).value.mem, n, q) == Translate(s.mem, n, q)
  {
    var addr := PhysicalAddress(s.mem, src, p);
    if Copied(p) && addr != 0 {
      MapTranslates(s, ds, n, p, addr, COPY_FLAGS, q);
    }
  }

  lemma {:induction false} CopyKeepsSystem(s: Phys, ds: set<FrameNo>, src: FrameNo, n: FrameNo, k: nat)
    requires System(s, ds) && src in ds && n in ds && k <= 1023 * 1024 && CopyPages(s, src, n, k).Some?
    ensures System(CopyPages(s, src, n, k).value, ds)
    ensures FreeClear(s) ==> FreeClear(CopyPages(s, src, n, k).value)
  {
    if k > 0 {
      var t, p := CopyPagesLast(s, src, n, k);
      CopyKeepsSystem(s, ds, src, n, p);
      CopyPageKeepsSystem(t, ds, src, n, p);
    }
  }

  lemma {:induction false} CopyKeepsMapped(s: Phys, ds: set<FrameNo>, src: FrameNo, n: FrameNo, k: nat, q: PageNo)
    requires System(s, ds) && src in ds && n in ds && src != n && q / 1024 != WINDOW
    requires k <= 1023 * 1024 && CopyPages(s, src, n, k).Some? && !Copied(q) && Translate(s.mem, n, q).Some?
    ensures Translate(CopyPages(s, src, n, k).value.mem, n, q) == Translate(s.mem, n, q)
  {
    if k > 0 {
      var t, p := CopyPagesLast(s, src, n, k);
      CopyKeepsMapped(s, ds, src, n, p, q);
      CopyKeepsSystem(s, ds, src, n, p);
      CopyPageKeepsMapped(t, ds, src, n, p, q);
    }
  }

  /** Copying leaves the source's translations as they were, and every other space's outside the
      copied range. `CopySeen` says what they see inside it. */
  lemma {:induction false} CopyLeavesOthers(s: Phys, ds: set<FrameNo>, src: FrameNo, n: FrameNo, k: nat, d: FrameNo,
          q: PageNo)
    requires System(s, ds) && src in ds && n in ds && d in ds && d != n && src != n && q / 1024 != WINDOW
    requires k <= 1023 * 1024 && CopyPages(s, src, n, k).Some?
    requires d == src || !Copied(q)
    ensures var t := CopyPages(s, src, n, k).value;
            Translate(t.mem, d, q) == Translate(s.mem, d, q)
              && PhysicalAddress(t.mem, d, q) == PhysicalAddress(s.mem, d, q)
  {
    if k > 0 {
      var t, p := CopyPagesLast(s, src, n, k);
      CopyLeavesOthers(s, ds, src, n, p, d, q);
      CopyKeepsSystem(s, ds, src, n, p);
      CopyPageInOther(t, ds, src, n, p, d, q);
    }
  }

  /** What the new space translates when the pages below `k` have been visited. */
  lemma {:induction false} CopyTranslates(s: Phys, ds: set<FrameNo>, src: FrameNo, n: FrameNo, k: nat, q: PageNo)
    requires System(s, ds) && src in ds && n in ds && src != n && q / 1024 != WINDOW && FreeClear(s)
    requires k <= 1023 * 1024 && CopyPages(s, src, n, k).Some?
    ensures Translate(CopyPages(s, src, n, k).value.mem, n, q) ==
            if Copied(q) && q < k && PhysicalAddress(s.mem, src, q) != 0 then Translate(s.mem, src, q)
              else Translate(s.mem, n, q)
  {
    if k > 0 {
      var t, p := CopyPagesLast(s, src, n, k);
      CopyTranslates(s, ds, src, n, p, q);
      CopyKeepsSystem(s, ds, src, n, p);
      CopyLeavesOthers(s, ds, src, n, p, src, p);
      CopyPageTranslates(t, ds, src, n, p, q);
    }
  }

  lemma CopyPageLeaves(s: Phys, ds: set<FrameNo>, src: FrameNo, n: FrameNo, p: PageNo, q: PageNo)
    requires System(s, ds) && src in ds && n in ds && src != n && q != p && Slot(s.mem, n, q / 1024).Some?
    requires p / 1024 != WINDOW && q / 1024 != WINDOW && CopyPage(s, src, n, p).Some?
    ensures var m' := CopyPage(s, src, n, p).value.mem;
            Slot(m', n, q / 1024).Some? && Leaf(m', n, q) == Leaf(s.mem, n, q)
  {
    var addr := PhysicalAddress(s.mem, src, p);
    if Copied(p) && addr != 0 {
      MapLeavesEntries(s, ds, n, p, addr, COPY_FLAGS, q);
    }
  }

  lemma CopyPageEntry(s: Phys, ds: set<FrameNo>, src: FrameNo, n: FrameNo, p: PageNo)
    requires System(s, ds) && src in ds && n in ds && src != n && FreeClear(s)
    requires p / 1024 != WINDOW && Copied(p) && PhysicalAddress(s.mem, src, p) != 0 && CopyPage(s, src, n, p).Some?
    ensures var m' := CopyPage(s, src, n, p).value.mem;
            Slot(m', n, p / 1024).Some? && Leaf(m', n, p) == PhysicalAddress(s.mem, src, p) + 7
  {
    LowByte(Leaf(s.mem, src, p) / 256, 0);
    MapEntry(s, ds, n, p, PhysicalAddress(s.mem, src, p), COPY_FLAGS);
  }

  /** The entry of every page that has been copied: the source's address, present, writable and for users. */
  lemma {:induction false} CopyWrites(s: Phys, ds: set<FrameNo>, src: FrameNo, n: FrameNo, k: nat, q: PageNo)
    requires System(s, ds) && src in ds && n in ds && src != n && q / 1024 != WINDOW && FreeClear(s)
    requires k <= 1023 * 1024 && CopyPages(s, src, n, k).Some?
    requires q < k && 0x8000_0000 <= 4096 * (q as int) <= 0xF000_0000 && PhysicalAddress(s.mem, src, q) != 0
    ensures var m' := CopyPages(s, src, n, k).value.mem;
            Slot(m', n, q / 1024).Some? && Leaf(m', n, q) == PhysicalAddress(s.mem, src, q) + 7
  {
    var t, p := CopyPagesLast(s, src, n, k);
    CopyKeepsSystem(s, ds, src, n, p);
    if q < p {
      CopyWrites(s, ds, src, n, p, q);
      CopyPageLeaves(t, ds, src, n, p, q);
    } else {
      CopyLeavesOthers(s, ds, src, n, p, src, p);
      CopyPageEntry(t, ds, src, n, p);
    }
  }

  /** Two spaces reach the same table in slot `i`. */
  predicate Shares(m: Memory, d: FrameNo, d': FrameNo, i: Index)
  {
    Slot(m, d, i).Some? && Slot(m, d, i) == Slot(m, d', i)
  }

  /** map gives its own space at most a table that is new to all, and no other space any. */
  lemma MapSlots(s: Phys, ds: set<FrameNo>, n: FrameNo, d: FrameNo, p: PageNo, addr: Word, flags: Byte, i: Index)
    requires System(s, ds) && n in ds && d in ds && d != n && p / 1024 != WINDOW && flags % 2 == 1
    requires Slot(s.mem, n, p / 1024).Some? || s.free != []
    ensures var m' := MapPage(s, n, p, addr, flags).mem;
            Slot(m', d, i) == Slot(s.mem, d, i) && Shares(m', d, n, i) == Shares(s.mem, d, n, i)
  {
    var s1 := s;
    if Slot(s.mem, n, p / 1024) == None {
      var x := PtEntry(s.free[0], flags);
      EntryNamesFirstFree(s, ds, flags);
      AddTableKeepsSystem(s, ds, n, p / 1024, x);
      AddTableInOther(s, ds, n, d, p / 1024, x, p);
      s1 := AddTable(s, n, p / 1024, x);
      assert i != p / 1024 ==> Slot(s1.mem, n, i) == Slot(s.mem, n, i);
    }
    assert Apart(s1.mem, n, d) && Apart(s1.mem, n, n);
    assert Slot(s1.mem, n, p / 1024) == Some(FrameOf(s1.mem[n][p / 1024]));
  }

  /** What one turn of the loop shows in a space other than the new one. */
  lemma CopyPageSeen(s: Phys, ds: set<FrameNo>, src: FrameNo, n: FrameNo, p: PageNo, d: FrameNo, q: PageNo)
    requires System(s, ds) && src in ds && n in ds && d in ds && d != n
    requires p / 1024 != WINDOW && q / 1024 != WINDOW && CopyPage(s, src, n, p).Some?
    ensures var t := CopyPage(s, src, n, p).value;
            && Shares(t.mem, d, n, q / 1024) == Shares(s.mem, d, n, q / 1024)
            && Translate(t.mem, d, q) ==
               if q == p && Copied(p) && PhysicalAddress(s.mem, src, p) != 0 && Shares(s.mem, d, n, p / 1024)
               then Translate(s.mem, src, p) else Translate(s.mem, d, q)
  {
    var addr := PhysicalAddress(s.mem, src, p);
    if Copied(p) && addr != 0 {
      MapInOther(s, ds, n, d, p, addr, COPY_FLAGS, q);
      MapSlots(s, ds, n, d, p, addr, COPY_FLAGS, q / 1024);
      FrameOfAddress(Leaf(s.mem, src, p));
    }
  }

  /** What the loop shows in another space: the source's pages, exactly in the tables it shares with the new one. */
  lemma {:induction false} CopySeen(s: Phys, ds: set<FrameNo>, src: FrameNo, n: FrameNo, k: nat, d: FrameNo, q: PageNo)
    requires System(s, ds) && src in ds && n in ds && d in ds && d != n && src != n && q / 1024 != WINDOW
    requires k <= 1023 * 1024 && CopyPages(s, src, n, k).Some?
    ensures var t := CopyPages(s, src, n, k).value;
            && Shares(t.mem, d, n, q / 1024) == Shares(s.mem, d, n, q / 1024)
            && Translate(t.mem, d, q) ==
               if Copied(q) && q < k && PhysicalAddress(s.mem, src, q) != 0 && Shares(s.mem, d, n, q / 1024)
               then Translate(s.mem, src, q) else Translate(s.mem, d, q)
  {
    if k > 0 {
      var t, p := CopyPagesLast(s, src, n, k);
      CopySeen(s, ds, src, n, p, d, q);
      CopyKeepsSystem(s, ds, src, n, p);
      CopyLeavesOthers(s, ds, src, n, p, src, p);
      CopyPageSeen(t, ds, src, n, p, d, q);
    }
  }

  /** copy_page_directory, given what it has copied into the new directory and window table. */
  function CopySpace(s: Phys, kernel: FrameNo, src: FrameNo, n: FrameNo, w: FrameNo): Option<Phys>
  {
    CopyPages(s.(mem := NewSpace(s.mem, kernel, n, w)), src, n, 1023 * 1024)
  }

  lemma CopySpaceSeen(s: Phys, ds: set<FrameNo>, kernel: FrameNo, src: FrameNo, n: FrameNo, w: FrameNo, d: FrameNo,
          q: PageNo)
    requires System(s, ds) && kernel in ds && src in ds && d in ds && Spare(s, ds, n, w) && q / 1024 != WINDOW
    requires CopySpace(s, kernel, src, n, w).Some?
    ensures Translate(CopySpace(s, kernel, src, n, w).value.mem, d, q) ==
            if Copied(q) && PhysicalAddress(s.mem, src, q) != 0 && Shares(s.mem, d, kernel, q / 1024)
            then Translate(s.mem, src, q) else Translate(s.mem, d, q)
  {
    var s1 := s.(mem := NewSpace(s.mem, kernel, n, w));
    assert src != n && d != n by { assert !Structural(s.mem, ds, n); }
    NewSpaceKeepsSystem(s, ds, kernel, n, w);
    NewSpaceTranslates(s, ds, kernel, n, w, src, q);
    NewSpaceTranslates(s, ds, kernel, n, w, d, q);
    NewSpaceSlots(s, ds, kernel, n, w, d, q / 1024);
    NewSpaceSlots(s, ds, kernel, n, w, n, q / 1024);
    CopySeen(s1, ds + {n}, src, n, 1023 * 1024, d, q);
  }

  /** The new space is the source where the source maps a page it can copy, the kernel's elsewhere; every other
      space shows the source's pages exactly where it shares the kernel's table. */
  lemma CopySpaceCorrect(s: Phys, ds: set<FrameNo>, kernel: FrameNo, src: FrameNo, n: FrameNo, w: FrameNo, q: PageNo)
    requires System(s, ds) && kernel in ds && src in ds && Spare(s, ds, n, w) && FreeClear(s) && q / 1024 != WINDOW
    requires CopySpace(s, kernel, src, n, w).Some?
    ensures var t, addr := CopySpace(s, kernel, src, n, w).value, PhysicalAddress(s.mem, src, q);
            && System(t, ds + {n})
            && (0x8000_0000 <= 4096 * (q as int) <= 0xF000_0000 && addr != 0 ==>
                  Translate(t.mem, n, q) == Translate(s.mem, src, q) && Leaf(t.mem, n, q) == addr + 7)
            && (!(0x8000_0000 <= 4096 * (q as int) <= 0xF000_0000 && addr != 0) ==>
                  Translate(t.mem, n, q) == Translate(s.mem, kernel, q))
            && Translate(t.mem, src, q) == Translate(s.mem, src, q)
            && (forall d | d in ds ::
                  Translate(t.mem, d, q) ==
                  if 0x8000_0000 <= 4096 * (q as int) <= 0xF000_0000 && addr != 0
                    && Slot(s.mem, d, q / 1024).Some? && Slot(s.mem, d, q / 1024) == Slot(s.mem, kernel, q / 1024)
                  then Translate(s.mem, src, q) else Translate(s.mem, d, q))
  {
    var s1 := s.(mem := NewSpace(s.mem, kernel, n, w));
    assert src != n by { assert !Structural(s.mem, ds, n); }
    NewSpaceKeepsSystem(s, ds, kernel, n, w);
    forall k | 0 <= k < |s1.free|
      ensures Empty(s1.mem[FrameOf(s1.free[k])])
    {
      assert s1.mem[FrameOf(s1.free[k])] == s.mem[FrameOf(s.free[k])];
    }
    CopyKeepsSystem(s1, ds + {n}, src, n, 1023 * 1024);
    CopyTranslates(s1, ds + {n}, src, n, 1023 * 1024, q);
    CopyLeavesOthers(s1, ds + {n}, src, n, 1023 * 1024, src, q);
    NewSpaceTranslates(s, ds, kernel, n, w, src, q);
    if 0x8000_0000 <= 4096 * (q as int) <= 0xF000_0000 && PhysicalAddress(s.mem, src, q) != 0 {
      CopyWrites(s1, ds + {n}, src, n, 1023 * 1024, q);
    }
    forall d | d in ds
      ensures Translate(CopySpace(s, kernel, src, n, w).value.mem, d, q) ==
              if Copied(q) && PhysicalAddress(s.mem, src, q) != 0 && Shares(s.mem, d, kernel, q / 1024)
              then Translate(s.mem, src, q) else Translate(s.mem, d, q)
    {
      CopySpaceSeen(s, ds, kernel, src, n, w, d, q);
    }
  }
}
