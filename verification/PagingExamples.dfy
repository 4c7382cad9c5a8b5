/** States in which the laws of paging that have a condition fail. */
module PagingExamples {
  import opened Words
  import opened Mmu
  import opened PageTables
  import opened AddressSpaces
  import opened FrameAccounting
  import P = Paging
  import R = PagingRuns

  function Zero(): (f: Frame)
    ensures Empty(f)
  {
    seq(1024, _ => 0)
  }

  function Clear(): (m: Memory)
    ensures forall f: FrameNo :: m[f] == Zero()
  {
    seq(0x10_0000, _ => Zero())
  }

  const POOL: set<FrameNo> := {1, 2, 3, 4, 5}

  /** A directory in frame 1 that maps nothing, its window table in frame 2, and frames 3 to 5 free. */
  ghost predicate Fresh(s: Phys)
  {
    && s.free == [0x3000, 0x4000, 0x5000] && System(s, {1}) && FreeClear(s)
    && (forall i: Index :: Slot(s.mem, 1, i) == if i == WINDOW then Some(2) else None)
    && Structure(s.mem, 1) == {1, 2} && (forall q: PageNo | q / 1024 != WINDOW :: Translate(s.mem, 1, q) == None)
  }

  lemma Start() returns (s: Phys)
    ensures Fresh(s)
  {
    var m := Clear();
    P.FreshRoots(Phys(m, []), 1, 2);
    s := Phys(Poke(Poke(m, 1, WINDOW, WindowEntry(2)), 2, WINDOW, WindowEntry(2)), [0x3000, 0x4000, 0x5000]);
    assert forall i: Index :: Slot(s.mem, 1, i) == if i == WINDOW then Some(2) else None;
    forall k | 0 <= k < |s.free|
      ensures s.mem[FrameOf(s.free[k])] == Zero() && !Structural(s.mem, {1}, FrameOf(s.free[k]))
    {
      assert FrameOf(s.free[k]) == k + 3;
    }
  }

  lemma StartPartition(s: Phys)
    requires Fresh(s)
    ensures Partition(s, 1, {}, POOL)
  {
    assert Owned(s.mem, 1, {}) == {};
    assert forall k | 0 <= k < |s.free| :: FrameOf(s.free[k]) == k + 3;
    assert FrameOf(s.free[0]) == 3 && FrameOf(s.free[1]) == 4 && FrameOf(s.free[2]) == 5;
    assert FreeSet(s) == {3, 4, 5};
  }

  /** map, with a free frame that still holds an entry at word 5: page 5 is mapped along with page 0. */
  lemma DirtyTable() returns (s: Phys)
    ensures System(s, {1}) && s.free != [] && Translate(s.mem, 1, 5) == None
    ensures Translate(MapPage(s, 1, 0, 0x8000, COPY_FLAGS).mem, 1, 5) == Some(9)
  {
    var s0 := Start();
    assert FrameOf(s0.free[0]) == 3;
    assert !Structural(s0.mem, {1}, 3);
    var content := s0.mem[3][5 := 0x9001];
    WriteSpare(s0, {1}, 3, content);
    s := s0.(mem := s0.mem[3 := content]);
    assert Translate(s.mem, 1, 5) == Translate(s0.mem, 1, 5);
    assert Slot(s0.mem, 1, 0) == None && s.mem[1] == s0.mem[1];
    MapTranslates(s, {1}, 1, 0, 0x8000, COPY_FLAGS, 5);
  }

  /** After page 0 is mapped its table, in frame 3, holds that entry alone. */
  lemma OneTable(s: Phys) returns (s1: Phys)
    requires Fresh(s)
    ensures s1 == MapPage(s, 1, 0, 0x8000, COPY_FLAGS) && System(s1, {1}) && Spare(s1, {1}, 9, 10)
    ensures Slot(s1.mem, 1, 0) == Some(3) && Translate(s1.mem, 1, 0) == Some(8)
    ensures forall k: Index | k > 0 :: s1.mem[3][k] == 0
  {
    assert FrameOf(s.free[0]) == 3;
    var x := PtEntry(s.free[0], COPY_FLAGS);
    s1 := MapPage(s, 1, 0, 0x8000, COPY_FLAGS);
    MapKeepsSystem(s, {1}, 1, 0, 0x8000, COPY_FLAGS);
    MapTranslates(s, {1}, 1, 0, 0x8000, COPY_FLAGS, 0);
    EntryNamesFirstFree(s, {1}, COPY_FLAGS);
    AddTableKeepsSystem(s, {1}, 1, 0, x);
    assert forall i: Index :: Slot(s1.mem, 1, i) == if i == 0 then Some(3) else Slot(s.mem, 1, i);
    assert Empty(s.mem[FrameOf(s.free[0])]);
    assert forall k | 0 <= k < |s1.free| :: s1.free[k] == s.free[k + 1];
  }

  /** kpfree_virtual on the only page of a table that a second space shares: the table's frame is free and
      still in use. */
  lemma SharedTable() returns (s: Phys)
    ensures System(s, {1, 9}) && Translate(s.mem, 9, 0) == Some(8) && !System(UnmapPage(s, 1, 0), {1, 9})
  {
    var s0 := Start();
    var s1 := OneTable(s0);
    NewSpaceKeepsSystem(s1, {1}, 1, 9, 10);
    s := s1.(mem := NewSpace(s1.mem, 1, 9, 10));
    NewSpaceTranslates(s1, {1}, 1, 9, 10, 1, 0);
    NewSpaceSlots(s1, {1}, 1, 9, 10, 1, 0);
    NewSpaceSlots(s1, {1}, 1, 9, 10, 9, 0);
    assert {1} + {9} == {1, 9};
    assert !Unshared(s.mem, {1, 9}, 1, 0);
    UnmapKeepsSystem(s, {1, 9}, 1, 0);
  }

  /** map of the page that the pointer to the directory in force goes through: the pointer leads to frame 8. */
  lemma MovedDirectory() returns (w: R.World)
    ensures R.Good(w) && R.Next(w, R.Map(0x8000, 0x1000, COPY_FLAGS)).Some?
    ensures !R.Good(R.Next(w, R.Map(0x8000, 0x1000, COPY_FLAGS)).value)
  {
    var s := Start();
    var s1 := MapPage(s, 1, 1, 0x1000, COPY_FLAGS);
    MapKeepsSystem(s, {1}, 1, 1, 0x1000, COPY_FLAGS);
    MapTranslates(s, {1}, 1, 1, 0x1000, COPY_FLAGS, 1);
    w := R.World(s1, 5, {1}, 1, 0x1000, 0x1000);
    assert PageOf(0x1000) == 1 && FrameOf(0x1000) == 1;
    AlignedEntry(0x8000, COPY_FLAGS);
    R.MapKeepsGood(w, 0x8000, 1, COPY_FLAGS);
  }

  /** knpalloc twice on one page: the frame it had is in no part of the pool any more. */
  lemma AllocTwice() returns (s: Phys)
    ensures Partition(s, 1, {}, POOL) && Translate(s.mem, 1, 0) != None
    ensures AllocPage(s, 1, 0).Some? && !Partition(AllocPage(s, 1, 0).value, 1, {}, POOL)
  {
    var s0 := Start();
    StartPartition(s0);
    var s1 := s0.(free := s0.free[1..]);
    PopFree(s0, {1});
    assert Empty(s0.mem[FrameOf(s0.free[1])]) && s1.free[0] == s0.free[1];
    AllocKeepsPartition(s0, 1, {}, POOL, 0);
    s := AllocPage(s0, 1, 0).value;
    MapTranslates(s1, {1}, 1, 0, s0.free[0], COPY_FLAGS, 0);
    MapStructure(s1, 1, 0, s0.free[0], COPY_FLAGS);
    AllocNeedsUnmapped(s, 1, {}, POOL, 0);
  }
}
