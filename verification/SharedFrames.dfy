/** Frames that several spaces map, as they do after copy_page_directory: when is no free frame mapped? */
module SharedFrames {
  import opened Words
  import opened Mmu
  import opened PageTables
  import opened AddressSpaces
  import opened FrameAccounting

  /** Page `q` of space `d` counts: it is not in the window, and not one that init_paging maps for good. */
  ghost predicate Counts(m: Memory, ds: set<FrameNo>, boot: set<PageNo>, d: FrameNo, q: PageNo)
  {
    d in ds && q / 1024 != WINDOW && q !in boot && Translate(m, d, q).Some?
  }

  /** No space maps a frame that is free. */
  ghost predicate NoFreeMapped(s: Phys, ds: set<FrameNo>, boot: set<PageNo>)
  {
    forall d: FrameNo, q: PageNo {:trigger Counts(s.mem, ds, boot, d, q)} | Counts(s.mem, ds, boot, d, q) ::
      Translate(s.mem, d, q).value !in FreeSet(s)
  }

  /** Releasing a table shows in no other space. */
  lemma DropInOther(s: Phys, ds: set<FrameNo>, d: FrameNo, d': FrameNo, i: Index, q: PageNo)
    requires System(s, ds) && d in ds && d' in ds && d' != d && i != WINDOW && q / 1024 != WINDOW
    ensures Translate(DropTable(s, d, i).mem, d', q) == Translate(s.mem, d', q)
  {
    var m' := DropTable(s, d, i).mem;
    assert Space(s.mem, d) && Apart(s.mem, d', d) && Apart(s.mem, d, d');
    assert Slot(s.mem, d, WINDOW) == Some(TablesOf(s.mem, d));
    assert m'[d'] == s.mem[d'];
    if Slot(s.mem, d', q / 1024).Some? {
      assert Slot(s.mem, d', q / 1024) == Some(FrameOf(s.mem[d'][q / 1024]));
      assert Slot(s.mem, d', q / 1024) != Slot(s.mem, d, WINDOW) && Slot(s.mem, d', q / 1024) != Some(d);
    }
  }

  /** Unmapping page `p` of `d` takes it from every space that reaches its table, and nothing else from any. */
  ghost predicate Loses(m: Memory, d: FrameNo, d': FrameNo, p: PageNo, q: PageNo)
  {
    q == p && (d' == d || Shares(m, d', d, p / 1024))
  }

  lemma UnmapInOther(s: Phys, ds: set<FrameNo>, d: FrameNo, d': FrameNo, p: PageNo, q: PageNo)
    requires System(s, ds) && d in ds && d' in ds && p / 1024 != WINDOW && q / 1024 != WINDOW
    requires Translate(s.mem, d, p) != None
    ensures Translate(UnmapPage(s, d, p).mem, d', q) ==
            if Loses(s.mem, d, d', p, q) then None else Translate(s.mem, d', q)
  {
    if d' == d {
      UnmapRefinesRemoval(s, ds, d, p, q);
    } else {
      ClearedLeaf(s, ds, d, p);
      PokeShared(s.mem, ds, d, d', p / 1024, p % 1024, 0, q);
      DropInOther(Cleared(s, d, p), ds, d, d', p / 1024, q);
    }
  }

  /** No page but those that lose it maps the frame of page `p` or, if its table is released, that frame. */
  ghost predicate Alone(s: Phys, ds: set<FrameNo>, boot: set<PageNo>, d: FrameNo, p: PageNo)
  {
    forall d': FrameNo, q: PageNo {:trigger Counts(s.mem, ds, boot, d', q)}
      | Counts(s.mem, ds, boot, d', q) && !Loses(s.mem, d, d', p, q) ::
      && Translate(s.mem, d', q) != Translate(s.mem, d, p)
      && (Empties(s.mem, d, p) ==> Translate(s.mem, d', q) != Slot(s.mem, d, p / 1024))
  }

  lemma FreedSet(s: Phys, ds: set<FrameNo>, d: FrameNo, p: PageNo)
    requires System(s, ds) && d in ds && p / 1024 != WINDOW && Translate(s.mem, d, p) != None
    ensures FreeSet(FreePage(s, d, p)) ==
            FreeSet(s) + {Translate(s.mem, d, p).value}
            + if Empties(s.mem, d, p) then {Slot(s.mem, d, p / 1024).value} else {}
  {
    var addr, table := Address(Leaf(s.mem, d, p)), Address(s.mem[d][p / 1024]);
    var t := if Empties(s.mem, d, p) then s.(free := [table] + s.free) else s;
    FreedFrames(s, ds, d, p);
    FrameOfAddress(Leaf(s.mem, d, p));
    FreeSetPush(s, table);
    FreeSetPush(t, addr);
    assert FreePage(s, d, p).free == [addr] + t.free;
    assert FreeSet(FreePage(s, d, p)) == FreeSet(t.(free := [addr] + t.free));
  }

  /** kpfree leaves no free frame mapped if and only if no other page has the frame that is given back. */
  lemma FreeKeepsUnmapped(s: Phys, ds: set<FrameNo>, boot: set<PageNo>, d: FrameNo, p: PageNo)
    requires System(s, ds) && NoFreeMapped(s, ds, boot) && d in ds && p / 1024 != WINDOW
    requires Translate(s.mem, d, p) != None
    ensures NoFreeMapped(FreePage(s, d, p), ds, boot) <==> Alone(s, ds, boot, d, p)
  {
    var t := FreePage(s, d, p);
    FreedSet(s, ds, d, p);
    forall d': FrameNo, q: PageNo | d' in ds && q / 1024 != WINDOW
      ensures Translate(t.mem, d', q) == if Loses(s.mem, d, d', p, q) then None else Translate(s.mem, d', q)
      ensures Counts(t.mem, ds, boot, d', q) <==> Counts(s.mem, ds, boot, d', q) && !Loses(s.mem, d, d', p, q)
    {
      UnmapInOther(s, ds, d, d', p, q);
    }
    if !Alone(s, ds, boot, d, p) {
      var d': FrameNo, q: PageNo :| Counts(s.mem, ds, boot, d', q) && !Loses(s.mem, d, d', p, q)
        && (Translate(s.mem, d', q) == Translate(s.mem, d, p)
            || (Empties(s.mem, d, p) && Translate(s.mem, d', q) == Slot(s.mem, d, p / 1024)));
      assert Counts(t.mem, ds, boot, d', q);
    }
  }

  lemma {:induction false} CopyTakesFree(s: Phys, src: FrameNo, n: FrameNo, k: nat)
    requires k <= 1023 * 1024 && CopyPages(s, src, n, k).Some?
    ensures FreeSet(CopyPages(s, src, n, k).value) <= FreeSet(s)
  {
    if k > 0 {
      var t, p := CopyPagesLast(s, src, n, k);
      CopyTakesFree(s, src, n, p);
      CopyPageTakesFree(t, src, n, p);
    }
  }

  lemma CopyPageTakesFree(s: Phys, src: FrameNo, n: FrameNo, p: PageNo)
    requires CopyPage(s, src, n, p).Some?
    ensures FreeSet(CopyPage(s, src, n, p).value) <= FreeSet(s)
  {
    var t := CopyPage(s, src, n, p).value;
    assert t.free == s.free || (s.free != [] && t.free == s.free[1..]);
    forall k | 0 <= k < |t.free|
      ensures FrameOf(t.free[k]) in FreeSet(s)
    {
      var j := if t.free == s.free then k else k + 1;
      assert t.free[k] == s.free[j];
    }
  }

  /** copy_page_directory leaves no free frame mapped. */
  lemma CopyKeepsUnmapped(s: Phys, ds: set<FrameNo>, boot: set<PageNo>, kernel: FrameNo, src: FrameNo, n: FrameNo,
          w: FrameNo)
    requires System(s, ds) && NoFreeMapped(s, ds, boot) && FreeClear(s)
    requires kernel in ds && src in ds && Spare(s, ds, n, w) && CopySpace(s, kernel, src, n, w).Some?
    ensures NoFreeMapped(CopySpace(s, kernel, src, n, w).value, ds + {n}, boot)
  {
    var t := CopySpace(s, kernel, src, n, w).value;
    CopyTakesFree(s.(mem := NewSpace(s.mem, kernel, n, w)), src, n, 1023 * 1024);
    assert FreeSet(s.(mem := NewSpace(s.mem, kernel, n, w))) == FreeSet(s);
    forall d: FrameNo, q: PageNo | Counts(t.mem, ds + {n}, boot, d, q)
      ensures Translate(t.mem, d, q).value !in FreeSet(t)
    {
      var e := Origin(s, ds, kernel, src, n, w, d, q);
      assert Counts(s.mem, ds, boot, e, q);
    }
  }

  /** The space whose translation a page has after the copy. */
  lemma Origin(s: Phys, ds: set<FrameNo>, kernel: FrameNo, src: FrameNo, n: FrameNo, w: FrameNo, d: FrameNo, q: PageNo)
    returns (e: FrameNo)
    requires System(s, ds) && FreeClear(s) && kernel in ds && src in ds && Spare(s, ds, n, w)
    requires CopySpace(s, kernel, src, n, w).Some? && d in ds + {n} && q / 1024 != WINDOW
    ensures e in ds && Translate(CopySpace(s, kernel, src, n, w).value.mem, d, q) == Translate(s.mem, e, q)
  {
    CopySpaceCorrect(s, ds, kernel, src, n, w, q);
    var copied := Copied(q) && PhysicalAddress(s.mem, src, q) != 0;
    if d == n {
      e := if copied then src else kernel;
    } else {
      e := if copied && Shares(s.mem, d, kernel, q / 1024) then src else d;
    }
  }

  /** But a copied page whose table the source does not share with the kernel is not alone any more: kpfree of it in
      the source then leaves a free frame mapped in the new space. */
  lemma CopiedNotAlone(s: Phys, ds: set<FrameNo>, boot: set<PageNo>, kernel: FrameNo, src: FrameNo, n: FrameNo,
          w: FrameNo, q: PageNo)
    requires System(s, ds) && NoFreeMapped(s, ds, boot) && FreeClear(s)
    requires kernel in ds && src in ds && Spare(s, ds, n, w) && CopySpace(s, kernel, src, n, w).Some?
    requires Copied(q) && q / 1024 != WINDOW && q !in boot && PhysicalAddress(s.mem, src, q) != 0
    requires !Shares(s.mem, src, kernel, q / 1024)
    ensures !NoFreeMapped(FreePage(CopySpace(s, kernel, src, n, w).value, src, q), ds + {n}, boot)
  {
    var t, s1 := CopySpace(s, kernel, src, n, w).value, s.(mem := NewSpace(s.mem, kernel, n, w));
    assert src != n by { assert !Structural(s.mem, ds, n); }
    CopySpaceCorrect(s, ds, kernel, src, n, w, q);
    CopyKeepsUnmapped(s, ds, boot, kernel, src, n, w);
    NewSpaceKeepsSystem(s, ds, kernel, n, w);
    NewSpaceSlots(s, ds, kernel, n, w, src, q / 1024);
    NewSpaceSlots(s, ds, kernel, n, w, n, q / 1024);
    CopySeen(s1, ds + {n}, src, n, 1023 * 1024, src, q);
    assert Counts(t.mem, ds + {n}, boot, n, q) && !Loses(t.mem, src, n, q, q);
    FreeKeepsUnmapped(t, ds + {n}, boot, src, q);
  }
}
