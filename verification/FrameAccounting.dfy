/** Where every frame of the pool is: free, behind a page mapped by knpalloc, or holding a directory or
    a table, over any run of knpalloc, kpfree and stores of one address space. */
module FrameAccounting {
  import opened Words
  import opened Mmu
  import opened PageTables
  import opened AddressSpaces

  /** knpalloc: a frame is taken for the page, and a second one if the page's slot has no table yet.
      None is the out-of-memory panic. A frame at address 0 would be taken for "no frame". */
  function AllocPage(s: Phys, d: FrameNo, vAddr: Word): Option<Phys>
  {
    if s.free == [] then None
    else
      var s1 := s.(free := s.free[1..]);
      if Slot(s.mem, d, PageOf(vAddr) / 1024) == None && s1.free == [] then None
      else Some(MapPage(s1, d, PageOf(vAddr), if s.free[0] != 0 then s.free[0] else vAddr, COPY_FLAGS))
  }

  /** The frames behind the pages mapped outside `boot`, the pages init_paging maps for good. */
  ghost function Owned(m: Memory, d: FrameNo, boot: set<PageNo>): set<FrameNo>
  {
    set p: PageNo | 0 <= p < 0x10_0000 && p / 1024 != WINDOW && p !in boot && Translate(m, d, p).Some? ::
      Translate(m, d, p).value
  }

  /** The frames of the directory and of its tables, the one behind slot 1023 included. */
  ghost function Structure(m: Memory, d: FrameNo): set<FrameNo>
  {
    {d} + set i: Index | 0 <= i < 1024 && Slot(m, d, i).Some? :: Slot(m, d, i).value
  }

  ghost function FreeSet(s: Phys): set<FrameNo>
  {
    set k | 0 <= k < |s.free| :: FrameOf(s.free[k])
  }

  /** Each page outside `boot` has a frame of its own, and its entry names that frame's base. */
  ghost predicate OwnFrames(m: Memory, d: FrameNo, boot: set<PageNo>)
  {
    && (forall p: PageNo | p / 1024 != WINDOW && p !in boot && Translate(m, d, p).Some? ::
          PhysicalAddress(m, d, p) == 4096 * (Translate(m, d, p).value as int))
    && (forall p: PageNo, q: PageNo | p / 1024 != WINDOW && q / 1024 != WINDOW && p !in boot && q !in boot && p != q
       && Translate(m, d, p).Some? ::
          Translate(m, d, p) != Translate(m, d, q))
  }

  /** The pool is split, without overlap, into free frames, frames behind pages, and tables. */
  ghost predicate Partition(s: Phys, d: FrameNo, boot: set<PageNo>, pool: set<FrameNo>)
  {
    && System(s, {d})
    && OwnFrames(s.mem, d, boot)
    && pool == FreeSet(s) + Owned(s.mem, d, boot) + Structure(s.mem, d)
    && FreeSet(s) !! Owned(s.mem, d, boot)
    && Owned(s.mem, d, boot) !! Structure(s.mem, d)
  }

  lemma StructureIsStructural(m: Memory, d: FrameNo, f: FrameNo)
    ensures f in Structure(m, d) <==> Structural(m, {d}, f)
  {
  }

  lemma TranslateIsOwned(m: Memory, d: FrameNo, boot: set<PageNo>, p: PageNo)
    requires p / 1024 != WINDOW && p !in boot && Translate(m, d, p).Some?
    ensures Translate(m, d, p).value in Owned(m, d, boot)
  {
  }

  /** What an operation must do to the pages and tables to keep the partition. */
  lemma KeepPartition(s: Phys, s': Phys, d: FrameNo, boot: set<PageNo>, pool: set<FrameNo>)
    requires Partition(s, d, boot, pool) && System(s', {d}) && OwnFrames(s'.mem, d, boot)
    requires FreeSet(s') + Owned(s'.mem, d, boot) + Structure(s'.mem, d) ==
      FreeSet(s) + Owned(s.mem, d, boot) + Structure(s.mem, d)
    requires FreeSet(s') !! Owned(s'.mem, d, boot) && Owned(s'.mem, d, boot) !! Structure(s'.mem, d)
    ensures Partition(s', d, boot, pool)
  {
  }

  lemma PageOwnsNoTable(s: Phys, d: FrameNo, boot: set<PageNo>, pool: set<FrameNo>, p: PageNo)
    requires Partition(s, d, boot, pool) && p / 1024 != WINDOW && p !in boot && Translate(s.mem, d, p).Some?
    ensures var f := Translate(s.mem, d, p).value;
            !Structural(s.mem, {d}, f) && f !in FreeSet(s) && Address(Leaf(s.mem, d, p)) == 4096 * (f as int)
    ensures Address(Leaf(s.mem, d, p)) !in s.free
  {
    var f := Translate(s.mem, d, p).value;
    TranslateIsOwned(s.mem, d, boot, p);
    StructureIsStructural(s.mem, d, f);
  }

  lemma FreeSetPop(s: Phys, ds: set<FrameNo>)
    requires FreeFrames(s, ds) && s.free != []
    ensures var f := FrameOf(s.free[0]);
            && FreeSet(s) == {f} + FreeSet(s.(free := s.free[1..])) && f !in FreeSet(s.(free := s.free[1..]))
            && s.free[0] == 4096 * (f as int)
  {
    var rest := s.(free := s.free[1..]);
    PopFree(s, ds);
    assert forall k | 0 <= k < |rest.free| :: rest.free[k] == s.free[k + 1];
    forall f | f in FreeSet(s)
      ensures f in {FrameOf(s.free[0])} + FreeSet(rest)
    {
      var k :| 0 <= k < |s.free| && FrameOf(s.free[k]) == f;
      assert k > 0 ==> rest.free[k - 1] == s.free[k];
    }
  }

  lemma FreeSetPush(s: Phys, addr: Word)
    ensures FreeSet(s.(free := [addr] + s.free)) == {FrameOf(addr)} + FreeSet(s)
  {
    var s' := s.(free := [addr] + s.free);
    assert s'.free[0] == addr;
    forall f | f in FreeSet(s)
      ensures f in FreeSet(s')
    {
      var k :| 0 <= k < |s.free| && FrameOf(s.free[k]) == f;
      assert s'.free[k + 1] == s.free[k];
    }
    forall f | f in FreeSet(s')
      ensures f in {FrameOf(addr)} + FreeSet(s)
    {
      var k :| 0 <= k < |s'.free| && FrameOf(s'.free[k]) == f;
      assert k > 0 ==> s'.free[k] == s.free[k - 1];
    }
  }

  /** The frame map takes for a table, if it takes one. */
  ghost function NewTableOf(s: Phys, d: FrameNo, p: PageNo): set<FrameNo>
  {
    if Slot(s.mem, d, p / 1024) == None && s.free != [] then {FrameOf(s.free[0])} else {}
  }

  lemma MapStructure(s: Phys, d: FrameNo, p: PageNo, addr: Word, flags: Byte)
    requires System(s, {d}) && p / 1024 != WINDOW && flags % 2 == 1
    requires Slot(s.mem, d, p / 1024).Some? || s.free != []
    ensures var s' := MapPage(s, d, p, addr, flags);
            && Structure(s'.mem, d) == Structure(s.mem, d) + NewTableOf(s, d, p)
            && FreeSet(s) == FreeSet(s') + NewTableOf(s, d, p) && FreeSet(s') !! NewTableOf(s, d, p)
            && |s'.free| == |s.free| - (if Slot(s.mem, d, p / 1024) == None then 1 else 0)
            && forall k: Index | k != p / 1024 :: Slot(s'.mem, d, k) == Slot(s.mem, d, k)
  {
    var i := p / 1024;
    var s' := MapPage(s, d, p, addr, flags);
    assert Space(s.mem, d);
    if Slot(s.mem, d, i) == None {
      var x := PtEntry(s.free[0], flags);
      EntryNamesFirstFree(s, {d}, flags);
      AddTableKeepsSystem(s, {d}, d, i, x);
      assert !Structural(s.mem, {d}, FrameOf(s.free[0]));
      assert forall k: Index :: Slot(s'.mem, d, k) == if k == i then Some(FrameOf(x)) else Slot(s.mem, d, k);
      FreeSetPop(s, {d});
      forall f | f in Structure(s.mem, d) + NewTableOf(s, d, p)
        ensures f in Structure(s'.mem, d)
      {
        if f == FrameOf(x) {
          assert Slot(s'.mem, d, i) == Some(f);
        } else if f != d {
          var k: Index :| Slot(s.mem, d, k) == Some(f);
          assert Slot(s'.mem, d, k) == Some(f);
        }
      }
    } else {
      assert Slot(s.mem, d, i) == Some(FrameOf(s.mem[d][i])) && Slot(s.mem, d, i) != Some(d);
      assert forall k: Index :: Slot(s'.mem, d, k) == Slot(s.mem, d, k);
    }
  }

  lemma MapOwned(s: Phys, d: FrameNo, boot: set<PageNo>, p: PageNo, addr: Word, flags: Byte)
    requires System(s, {d}) && p / 1024 != WINDOW && p !in boot && flags % 2 == 1 && Translate(s.mem, d, p) == None
    requires Slot(s.mem, d, p / 1024).Some? || s.free != []
    requires ClearForTable(s, d, p)
    ensures Owned(MapPage(s, d, p, addr, flags).mem, d, boot) == Owned(s.mem, d, boot) + {FrameOf(addr)}
  {
    var m, m' := s.mem, MapPage(s, d, p, addr, flags).mem;
    forall q: PageNo | q / 1024 != WINDOW
      ensures Translate(m', d, q) == if q == p then Some(FrameOf(addr)) else Translate(m, d, q)
    {
      MapTranslates(s, {d}, d, p, addr, flags, q);
    }
    forall f | f in Owned(m, d, boot) + {FrameOf(addr)}
      ensures f in Owned(m', d, boot)
    {
      var q: PageNo :| q / 1024 != WINDOW && q !in boot && Translate(m', d, q) == Some(f) by {
        if f != FrameOf(addr) {
          var q: PageNo :| q / 1024 != WINDOW && q !in boot && Translate(m, d, q) == Some(f);
          assert Translate(m', d, q) == Some(f);
        } else {
          assert Translate(m', d, p) == Some(f);
        }
      }
      TranslateIsOwned(m', d, boot, q);
    }
  }

  lemma MapOwnFrames(s: Phys, d: FrameNo, boot: set<PageNo>, p: PageNo, addr: Word, flags: Byte)
    requires System(s, {d}) && p / 1024 != WINDOW && p !in boot && flags % 2 == 1
    requires Slot(s.mem, d, p / 1024).Some? || s.free != []
    requires ClearForTable(s, d, p)
    requires OwnFrames(s.mem, d, boot) && FrameOf(addr) !in Owned(s.mem, d, boot)
    requires Address(addr) == 4096 * (FrameOf(addr) as int)
    ensures OwnFrames(MapPage(s, d, p, addr, flags).mem, d, boot)
  {
    var m' := MapPage(s, d, p, addr, flags).mem;
    var f := FrameOf(addr);
    forall q: PageNo | q / 1024 != WINDOW
      ensures Translate(m', d, q) == if q == p then Some(f) else Translate(s.mem, d, q)
      ensures PhysicalAddress(m', d, q) == if q == p then Address(addr) else PhysicalAddress(s.mem, d, q)
    {
      MapTranslates(s, {d}, d, p, addr, flags, q);
      MapReadBack(s, {d}, d, p, addr, flags, q);
    }
    forall q: PageNo | q / 1024 != WINDOW && q !in boot && Translate(s.mem, d, q).Some?
      ensures Translate(s.mem, d, q) != Some(f)
    {
      TranslateIsOwned(s.mem, d, boot, q);
    }
  }

  lemma AlignedAddress(a: Word, f: FrameNo)
    requires a == 4096 * (f as int)
    ensures FrameOf(a) == f && Address(a) == a && (f != 0 ==> a != 0)
  {
  }

  /** The frame that is taken is nobody else's. */
  lemma FrameTaken(s: Phys, d: FrameNo, boot: set<PageNo>, pool: set<FrameNo>)
    requires Partition(s, d, boot, pool) && 0 !in pool && s.free != []
    ensures var s1, f := s.(free := s.free[1..]), FrameOf(s.free[0]);
            && System(s1, {d}) && s.free[0] == 4096 * (f as int) && f != 0
            && FreeSet(s) == {f} + FreeSet(s1) && f !in FreeSet(s1)
            && f !in Owned(s.mem, d, boot) && f !in Structure(s.mem, d)
  {
    var f := FrameOf(s.free[0]);
    PopFree(s, {d});
    FreeSetPop(s, {d});
    assert f in FreeSet(s);
    assert !Structural(s.mem, {d}, f);
    StructureIsStructural(s.mem, d, f);
  }

  /** knpalloc moves a frame from the free ones behind the page, and perhaps another into the tables. */
  lemma AllocKeepsPartition(s: Phys, d: FrameNo, boot: set<PageNo>, pool: set<FrameNo>, vAddr: Word)
    requires Partition(s, d, boot, pool) && 0 !in pool && AllocPage(s, d, vAddr).Some?
    requires var p := PageOf(vAddr); p / 1024 != WINDOW && p !in boot && Translate(s.mem, d, p) == None
    requires ClearForTable(s.(free := s.free[1..]), d, PageOf(vAddr))
    ensures Partition(AllocPage(s, d, vAddr).value, d, boot, pool)
  {
    var p, a := PageOf(vAddr), s.free[0];
    var f, s1, s' := FrameOf(a), s.(free := s.free[1..]), AllocPage(s, d, vAddr).value;
    FrameTaken(s, d, boot, pool);
    AlignedAddress(a, f);
    assert s' == MapPage(s1, d, p, a, COPY_FLAGS);
    assert System(s', {d}) by {
      MapKeepsSystem(s1, {d}, d, p, a, COPY_FLAGS);
    }
    MapStructure(s1, d, p, a, COPY_FLAGS);
    MapOwned(s1, d, boot, p, a, COPY_FLAGS);
    assert OwnFrames(s'.mem, d, boot) by {
      MapOwnFrames(s1, d, boot, p, a, COPY_FLAGS);
    }
    Moved(FreeSet(s), Owned(s.mem, d, boot), Structure(s.mem, d), FreeSet(s'), Owned(s'.mem, d, boot),
      Structure(s'.mem, d), {f}, NewTableOf(s1, d, p), FreeSet(s1));
    KeepPartition(s, s', d, boot, pool);
  }

  /** The entry is the first free frame's, present, writable and for users. */
  lemma AllocWrites(s: Phys, ds: set<FrameNo>, d: FrameNo, vAddr: Word)
    requires System(s, ds) && d in ds && AllocPage(s, d, vAddr).Some? && PageOf(vAddr) / 1024 != WINDOW
    requires s.free[0] != 0
    ensures var m' := AllocPage(s, d, vAddr).value.mem;
            && Translate(m', d, PageOf(vAddr)) == Some(FrameOf(s.free[0]))
            && Leaf(m', d, PageOf(vAddr)) == s.free[0] + 7
  {
    var p, a, s1 := PageOf(vAddr), s.free[0], s.(free := s.free[1..]);
    PopFree(s, ds);
    MapTranslates(s1, ds, d, p, a, COPY_FLAGS, p);
    AlignedBase(a);
    MapEntry(s1, ds, d, p, a, COPY_FLAGS);
    ReadBack(a, COPY_FLAGS);
  }

  /** knpalloc on a page that is mapped already loses the frame it had: the partition survives if and
      only if the page was unmapped. */
  lemma AllocNeedsUnmapped(s: Phys, d: FrameNo, boot: set<PageNo>, pool: set<FrameNo>, vAddr: Word)
    requires Partition(s, d, boot, pool) && 0 !in pool && AllocPage(s, d, vAddr).Some?
    requires PageOf(vAddr) / 1024 != WINDOW && PageOf(vAddr) !in boot
    requires ClearForTable(s.(free := s.free[1..]), d, PageOf(vAddr))
    ensures Partition(AllocPage(s, d, vAddr).value, d, boot, pool) <==> Translate(s.mem, d, PageOf(vAddr)) == None
  {
    var p, a := PageOf(vAddr), s.free[0];
    if Translate(s.mem, d, p) == None {
      AllocKeepsPartition(s, d, boot, pool, vAddr);
    } else {
      var lost := Translate(s.mem, d, p).value;
      var s1, s' := s.(free := s.free[1..]), AllocPage(s, d, vAddr).value;
      PageOwnsNoTable(s, d, boot, pool, p);
      TranslateIsOwned(s.mem, d, boot, p);
      PopFree(s, {d});
      FreeSetPop(s, {d});
      assert FrameOf(a) in FreeSet(s);
      assert s' == MapPage(s1, d, p, a, COPY_FLAGS);
      MapStructure(s1, d, p, a, COPY_FLAGS);
      StructureIsStructural(s.mem, d, lost);
      forall q: PageNo | q / 1024 != WINDOW && q !in boot
        ensures Translate(s'.mem, d, q) != Some(lost)
      {
        MapTranslates(s1, {d}, d, p, a, COPY_FLAGS, q);
      }
      assert lost !in Owned(s'.mem, d, boot);
      assert lost !in FreeSet(s') && lost !in Structure(s'.mem, d);
    }
  }

  /** Frames `page` and `table` leave `free` for `owned` and `structure`. */
  lemma Moved(free: set<FrameNo>, owned: set<FrameNo>, structure: set<FrameNo>, free': set<FrameNo>,
          owned': set<FrameNo>, structure': set<FrameNo>,
              page: set<FrameNo>, table: set<FrameNo>, rest: set<FrameNo>)
    requires free == page + rest && page !! rest && rest == free' + table && free' !! table
    requires owned' == owned + page && structure' == structure + table
    requires free !! owned && owned !! structure && page !! structure
    ensures free' + owned' + structure' == free + owned + structure && free' !! owned' && owned' !! structure'
  {
  }

  lemma UnmapStructure(s: Phys, d: FrameNo, p: PageNo)
    requires System(s, {d}) && p / 1024 != WINDOW && Translate(s.mem, d, p).Some?
    ensures var s' := UnmapPage(s, d, p);
            var table := if Slot(s'.mem, d, p / 1024) == None then {FrameOf(s.mem[d][p / 1024])} else {};
            && Structure(s.mem, d) == Structure(s'.mem, d) + table && Structure(s'.mem, d) !! table
            && FreeSet(s') == FreeSet(s) + table
            && s'.free == (if table == {} then s.free else [Address(s.mem[d][p / 1024])] + s.free)
  {
    var i := p / 1024;
    var f := FrameOf(s.mem[d][i]);
    var s1 := s.(mem := Poke(s.mem, f, p % 1024, 0));
    var s' := UnmapPage(s, d, p);
    assert Space(s.mem, d);
    assert Slot(s.mem, d, i) == Some(f);
    assert forall k: Index :: Slot(s1.mem, d, k) == Slot(s.mem, d, k);
    if Empty(s1.mem[f]) {
      assert forall k: Index :: Slot(s'.mem, d, k) == if k == i then None else Slot(s.mem, d, k);
      TableAddress(s.mem, d, i);
      FreeSetPush(s, Address(s.mem[d][i]));
      forall g | g in Structure(s.mem, d)
        ensures g in Structure(s'.mem, d) + {f}
      {
        if g != d && g != f {
          var k: Index :| Slot(s.mem, d, k) == Some(g);
          assert Slot(s'.mem, d, k) == Some(g);
        }
      }
    }
  }

  lemma UnmapOwned(s: Phys, d: FrameNo, boot: set<PageNo>, p: PageNo)
    requires System(s, {d}) && p / 1024 != WINDOW && p !in boot && Translate(s.mem, d, p).Some?
    requires OwnFrames(s.mem, d, boot)
    ensures var m', f := UnmapPage(s, d, p).mem, Translate(s.mem, d, p).value;
            Owned(s.mem, d, boot) == Owned(m', d, boot) + {f} && f !in Owned(m', d, boot) && OwnFrames(m', d, boot)
  {
    var m', f := UnmapPage(s, d, p).mem, Translate(s.mem, d, p).value;
    forall q: PageNo | q / 1024 != WINDOW
      ensures Translate(m', d, q) == if q == p then None else Translate(s.mem, d, q)
      ensures PhysicalAddress(m', d, q) == if q == p then 0 else PhysicalAddress(s.mem, d, q)
    {
      UnmapRefinesRemoval(s, {d}, d, p, q);
      UnmapReadBack(s, {d}, d, p, q);
    }
    TranslateIsOwned(s.mem, d, boot, p);
    forall g | g in Owned(s.mem, d, boot) && g != f
      ensures g in Owned(m', d, boot)
    {
      var q: PageNo :| q / 1024 != WINDOW && q !in boot && Translate(s.mem, d, q) == Some(g);
      TranslateIsOwned(m', d, boot, q);
    }
  }

  /** A single space shares no table. */
  lemma FreeAlone(s: Phys, d: FrameNo, p: PageNo)
    requires System(s, {d}) && p / 1024 != WINDOW && OwnFrame(s, {d}, d, p)
    ensures System(FreePage(s, d, p), {d})
  {
    FreeKeepsSystem(s, {d}, d, p);
  }

  /** kpfree moves the page's frame back to the free ones, and its table's with the table's last page. */
  lemma FreeKeepsPartition(s: Phys, d: FrameNo, boot: set<PageNo>, pool: set<FrameNo>, p: PageNo)
    requires Partition(s, d, boot, pool) && p / 1024 != WINDOW && p !in boot
    ensures Partition(FreePage(s, d, p), d, boot, pool)
  {
    if Translate(s.mem, d, p).Some? {
      var s' := FreePage(s, d, p);
      PageOwnsNoTable(s, d, boot, pool, p);
      FreeAlone(s, d, p);
      UnmapOwned(s, d, boot, p);
      FreeMoves(s, d, boot, p);
      KeepPartition(s, s', d, boot, pool);
    }
  }

  lemma FreeMoves(s: Phys, d: FrameNo, boot: set<PageNo>, p: PageNo)
    requires System(s, {d}) && OwnFrames(s.mem, d, boot) && p / 1024 != WINDOW && p !in boot
    requires Translate(s.mem, d, p).Some?
    requires FreeSet(s) !! Owned(s.mem, d, boot) && Owned(s.mem, d, boot) !! Structure(s.mem, d)
    ensures var s' := FreePage(s, d, p);
            && FreeSet(s') + Owned(s'.mem, d, boot) + Structure(s'.mem, d) ==
               FreeSet(s) + Owned(s.mem, d, boot) + Structure(s.mem, d)
            && FreeSet(s') !! Owned(s'.mem, d, boot) && Owned(s'.mem, d, boot) !! Structure(s'.mem, d)
  {
    var f, addr := Translate(s.mem, d, p).value, Address(Leaf(s.mem, d, p));
    var s1 := UnmapPage(s, d, p);
    UnmapStructure(s, d, p);
    UnmapOwned(s, d, boot, p);
    FreeSetPush(s1, addr);
    FrameOfAddress(Leaf(s.mem, d, p));
    var table := if Slot(s1.mem, d, p / 1024) == None then {FrameOf(s.mem[d][p / 1024])} else {};
    Returned(FreeSet(s), Owned(s.mem, d, boot), Structure(s.mem, d), {f} + (FreeSet(s) + table),
      Owned(s1.mem, d, boot), Structure(s1.mem, d), {f}, table);
  }

  lemma Returned(free: set<FrameNo>, owned: set<FrameNo>, structure: set<FrameNo>, free': set<FrameNo>,
          owned': set<FrameNo>, structure': set<FrameNo>,
                 page: set<FrameNo>, table: set<FrameNo>)
    requires free' == page + (free + table)
    requires owned == owned' + page && owned' !! page && structure == structure' + table && structure' !! table
    requires free !! owned && owned !! structure
    ensures free' + owned' + structure' == free + owned + structure && free' !! owned' && owned' !! structure'
  {
  }

  /** A store through a page of its own changes no translation. */
  lemma StoreKeepsPartition(s: Phys, d: FrameNo, boot: set<PageNo>, pool: set<FrameNo>, p: PageNo, k: Index, x: Word)
    requires Partition(s, d, boot, pool) && p / 1024 != WINDOW && p !in boot && Translate(s.mem, d, p).Some?
    ensures Partition(s.(mem := Poke(s.mem, Translate(s.mem, d, p).value, k, x)), d, boot, pool)
  {
    var f := Translate(s.mem, d, p).value;
    var s' := s.(mem := Poke(s.mem, f, k, x));
    PageOwnsNoTable(s, d, boot, pool, p);
    WriteSpare(s, {d}, f, s.mem[f][k := x]);
    assert SameView(s.mem, s'.mem, {d});
    assert s'.mem[d] == s.mem[d];
    assert forall i: Index :: Slot(s'.mem, d, i) == Slot(s.mem, d, i);
    assert Structure(s'.mem, d) == Structure(s.mem, d);
    assert Owned(s'.mem, d, boot) == Owned(s.mem, d, boot);
    assert OwnFrames(s'.mem, d, boot);
    assert FreeSet(s') == FreeSet(s);
  }

  datatype Op = Alloc(vAddr: Word) | Free(vAddr: Word) | Store(vAddr: Word, x: Word)

  /** What a run may ask for: pages of its own, not yet mapped when allocated, mapped when stored to.
      The one assumption on memory: a frame taken for a table comes zero-filled, or at least with no
      present bit set, since map does not clear it. */
  ghost predicate Allowed(s: Phys, d: FrameNo, boot: set<PageNo>, op: Op)
  {
    var p := PageOf(op.vAddr);
    && p / 1024 != WINDOW && p !in boot
    && match op
       case Alloc(v) => Translate(s.mem, d, p) == None
         && (AllocPage(s, d, v).Some? ==> ClearForTable(s.(free := s.free[1..]), d, p))
       case Free(_) => true
       case Store(_, _) => Translate(s.mem, d, p).Some?
  }

  /** knpalloc (an out-of-memory panic changes nothing more), kpfree, and a program's store. */
  function Step(s: Phys, d: FrameNo, op: Op): Phys
  {
    match op
    case Alloc(v) => (match AllocPage(s, d, v) case Some(t) => t case None => s)
    case Free(v) => FreePage(s, d, PageOf(v))
    case Store(v, x) =>
      match Translate(s.mem, d, PageOf(v))
      case Some(f) => s.(mem := Poke(s.mem, f, WordIn(v), x))
      case None => s
  }

  function Exec(s: Phys, d: FrameNo, ops: seq<Op>): Phys
    decreases ops
  {
    if ops == [] then s else Exec(Step(s, d, ops[0]), d, ops[1..])
  }

  ghost predicate Runs(s: Phys, d: FrameNo, boot: set<PageNo>, ops: seq<Op>)
    decreases ops
  {
    ops == [] || (Allowed(s, d, boot, ops[0]) && Runs(Step(s, d, ops[0]), d, boot, ops[1..]))
  }

  /** Over any run of one address space the free frames, the frames behind its pages and the frames of
      its directory and tables split the initial pool, without duplicates. */
  lemma {:induction false} RunKeepsPartition(s: Phys, d: FrameNo, boot: set<PageNo>, pool: set<FrameNo>, ops: seq<Op>)
    requires Partition(s, d, boot, pool) && 0 !in pool && Runs(s, d, boot, ops)
    ensures Partition(Exec(s, d, ops), d, boot, pool)
    decreases ops
  {
    if ops != [] {
      var t := Step(s, d, ops[0]);
      match ops[0] {
        case Alloc(v) =>
          if AllocPage(s, d, v).Some? {
            AllocKeepsPartition(s, d, boot, pool, v);
          }
        case Free(v) => FreeKeepsPartition(s, d, boot, pool, PageOf(v));
        case Store(v, x) => StoreKeepsPartition(s, d, boot, pool, PageOf(v), WordIn(v), x);
      }
      RunKeepsPartition(t, d, boot, pool, ops[1..]);
    }
  }

  lemma {:induction false} DistinctFree(s: Phys, ds: set<FrameNo>)
    requires FreeFrames(s, ds)
    ensures |FreeSet(s)| == |s.free|
    decreases |s.free|
  {
    if s.free != [] {
      FreeSetPop(s, ds);
      PopFree(s, ds);
      DistinctFree(s.(free := s.free[1..]), ds);
    }
  }

  /** So the stack index, the pool's size less the free frames, is the number of frames in use, and no
      kpfree of the run can push below index 0. */
  lemma FramesInUse(s: Phys, d: FrameNo, boot: set<PageNo>, pool: set<FrameNo>, ops: seq<Op>, p: PageNo)
    requires Partition(s, d, boot, pool) && 0 !in pool && Runs(s, d, boot, ops) && p / 1024 != WINDOW && p !in boot
    ensures var t := Exec(s, d, ops);
            && |pool| - |t.free| == |Owned(t.mem, d, boot)| + |Structure(t.mem, d)|
            && |FreePage(t, d, p).free| <= |pool|
  {
    RunKeepsPartition(s, d, boot, pool, ops);
    var t := Exec(s, d, ops);
    CountPartition(t, d, boot, pool);
    FreeKeepsPartition(t, d, boot, pool, p);
    CountPartition(FreePage(t, d, p), d, boot, pool);
  }

  lemma CountPartition(s: Phys, d: FrameNo, boot: set<PageNo>, pool: set<FrameNo>)
    requires Partition(s, d, boot, pool)
    ensures |pool| - |s.free| == |Owned(s.mem, d, boot)| + |Structure(s.mem, d)| >= 0
  {
    DistinctFree(s, {d});
    var free, owned, structure := FreeSet(s), Owned(s.mem, d, boot), Structure(s.mem, d);
    forall f | f in free
      ensures f !in structure
    {
      StructureIsStructural(s.mem, d, f);
    }
    assert |free + owned| == |free| + |owned|;
    assert (free + owned) !! structure;
    assert |pool| == |free + owned| + |structure|;
  }

  /** kpfree of a mapped page gives back two frames if no other entry of its table is in use, else one. */
  lemma FreeReturns(s: Phys, d: FrameNo, p: PageNo)
    requires System(s, {d}) && p / 1024 != WINDOW && Translate(s.mem, d, p).Some?
    ensures var table := s.mem[FrameOf(s.mem[d][p / 1024])];
            |FreePage(s, d, p).free| == |s.free| + if (forall k: Index :: k != p % 1024 ==> table[k] == 0) then 2 else 1
  {
    var table := s.mem[FrameOf(s.mem[d][p / 1024])];
    var cleared := table[p % 1024 := 0];
    assert forall k: Index :: cleared[k] == if k == p % 1024 then 0 else table[k];
    if Empty(cleared) {
      assert forall k: Index :: k != p % 1024 ==> table[k] == cleared[k];
    }
  }
}
