/** The frame stack of pmm.c: `k_frame_stack` with its index and size. */
module Pmm {
  import opened Words

  /** A memory-map entry; kind 1 is usable memory. */
  datatype Region = Region(addr: nat, len: nat, kind: nat)

  datatype ProtectedRegion = ProtectedRegion(start: nat, size: nat)

  /** pmm_check_frame: outside every protected region, whose end counts as protected. */
  predicate CheckFrame(frame: nat, protected: seq<ProtectedRegion>)
  {
    forall i | 0 <= i < |protected| :: !(protected[i].start <= frame <= protected[i].start + protected[i].size)
  }

  /** The entry lies below 4 GiB and its length fits the loop's signed counter. */
  predicate Addressable(r: Region)
  {
    r.addr + r.len <= 0x1_0000_0000 && r.len <= 0x7FFF_F000
  }

  /** The frames of a region from offset `k` on, as init_pmm stacks them. */
  function RegionFrames(r: Region, protected: seq<ProtectedRegion>, k: nat): seq<Word>
    requires Addressable(r)
    decreases r.len - k
  {
    if k >= r.len then []
    else
      var rest := RegionFrames(r, protected, k + 4096);
      if CheckFrame(r.addr + k, protected) then [r.addr + k] + rest else rest
  }

  function UsableFrames(regions: seq<Region>, protected: seq<ProtectedRegion>): seq<Word>
    requires forall i | 0 <= i < |regions| :: Addressable(regions[i])
  {
    if regions == [] then []
    else
      var r, rest := regions[0], UsableFrames(regions[1..], protected);
      (if r.kind == 1 then RegionFrames(r, protected, 0) else []) + rest
  }

  lemma {:induction false} RegionMember(r: Region, protected: seq<ProtectedRegion>, k: nat, a: Word)
    requires Addressable(r) && k % 4096 == 0
    ensures a in RegionFrames(r, protected, k) <==>
            r.addr + k <= a < r.addr + r.len && (a - r.addr) % 4096 == 0 && CheckFrame(a, protected)
    decreases r.len - k
  {
    if k < r.len {
      RegionMember(r, protected, k + 4096, a);
    }
  }

  /** A frame is stacked exactly if it starts a page of usable memory outside the protected regions. */
  lemma UsableMember(regions: seq<Region>, protected: seq<ProtectedRegion>, a: Word)
    requires forall i | 0 <= i < |regions| :: Addressable(regions[i])
    ensures a in UsableFrames(regions, protected) <==>
            && (forall i | 0 <= i < |protected| :: a < protected[i].start || a > protected[i].start + protected[i].size)
            && (exists i | 0 <= i < |regions| ::
                  regions[i].kind == 1 && 0 <= a - regions[i].addr < regions[i].len
                    && (a - regions[i].addr) % 4096 == 0)
  {
    MemberOf(regions, protected, a);
    if a in UsableFrames(regions, protected) {
      var i :| 0 <= i < |regions| && regions[i].kind == 1 && InRegion(a, regions[i]);
      assert 0 <= a - regions[i].addr < regions[i].len;
    }
    forall i | 0 <= i < |regions| && 0 <= a - regions[i].addr < regions[i].len && (a - regions[i].addr) % 4096 == 0
      ensures InRegion(a, regions[i])
    {
    }
  }

  lemma {:induction false} MemberOf(regions: seq<Region>, protected: seq<ProtectedRegion>, a: Word)
    requires forall i | 0 <= i < |regions| :: Addressable(regions[i])
    ensures a in UsableFrames(regions, protected) <==>
            CheckFrame(a, protected) && exists i | 0 <= i < |regions| :: regions[i].kind == 1 && InRegion(a, regions[i])
    decreases |regions|
  {
    if regions != [] {
      RegionMember(regions[0], protected, 0, a);
      MemberOf(regions[1..], protected, a);
      if exists i | 0 <= i < |regions| :: regions[i].kind == 1 && InRegion(a, regions[i]) {
        var i :| 0 <= i < |regions| && regions[i].kind == 1 && InRegion(a, regions[i]);
        assert i > 0 ==> regions[1..][i - 1] == regions[i];
      }
    }
  }

  predicate InRegion(a: nat, r: Region)
  {
    r.addr <= a < r.addr + r.len && (a - r.addr) % 4096 == 0
  }

  ghost predicate Distinct(s: seq<Word>)
  {
    forall i, j | 0 <= i < j < |s| :: s[i] != s[j]
  }

  lemma {:induction false} RegionDistinct(r: Region, protected: seq<ProtectedRegion>, k: nat)
    requires Addressable(r) && k % 4096 == 0
    ensures Distinct(RegionFrames(r, protected, k))
    decreases r.len - k
  {
    if k < r.len {
      RegionDistinct(r, protected, k + 4096);
      RegionMember(r, protected, k + 4096, r.addr + k);
    }
  }

  lemma DistinctConcat(xs: seq<Word>, ys: seq<Word>)
    requires Distinct(xs) && Distinct(ys) && forall a | a in xs :: a !in ys
    ensures Distinct(xs + ys)
  {
    forall i, j | 0 <= i < j < |xs + ys|
      ensures (xs + ys)[i] != (xs + ys)[j]
    {
      assert i < |xs| ==> xs[i] in xs;
      assert j >= |xs| ==> ys[j - |xs|] in ys;
    }
  }

  /** From regions that do not overlap no frame is stacked twice. */
  lemma {:induction false} UsableDistinct(regions: seq<Region>, protected: seq<ProtectedRegion>)
    requires forall i | 0 <= i < |regions| :: Addressable(regions[i])
    requires forall i, j | 0 <= i < j < |regions| && regions[i].kind == 1 && regions[j].kind == 1 ::
               regions[i].addr + regions[i].len <= regions[j].addr
                 || regions[j].addr + regions[j].len <= regions[i].addr
    ensures Distinct(UsableFrames(regions, protected))
    decreases |regions|
  {
    if regions != [] {
      var r := regions[0];
      UsableDistinct(regions[1..], protected);
      if r.kind == 1 {
        RegionDistinct(r, protected, 0);
        forall a: Word | a in RegionFrames(r, protected, 0)
          ensures a !in UsableFrames(regions[1..], protected)
        {
          RegionMember(r, protected, 0, a);
          MemberOf(regions[1..], protected, a);
        }
        DistinctConcat(RegionFrames(r, protected, 0), UsableFrames(regions[1..], protected));
      } else {
        assert [] + UsableFrames(regions[1..], protected) == UsableFrames(regions[1..], protected);
      }
    }
  }

  /** They are stacked region by region, in the order of the memory map, ... */
  lemma {:induction false} UsableInOrder(xs: seq<Region>, ys: seq<Region>, protected: seq<ProtectedRegion>)
    requires forall i | 0 <= i < |xs| :: Addressable(xs[i])
    requires forall i | 0 <= i < |ys| :: Addressable(ys[i])
    ensures UsableFrames(xs + ys, protected) == UsableFrames(xs, protected) + UsableFrames(ys, protected)
    decreases |xs|
  {
    if xs == [] {
      assert xs + ys == ys;
    } else {
      assert (xs + ys)[0] == xs[0] && (xs + ys)[1..] == xs[1..] + ys;
      UsableInOrder(xs[1..], ys, protected);
    }
  }

  /** ... and upwards within a region. */
  lemma UsableUpwards(r: Region, protected: seq<ProtectedRegion>, i: nat, j: nat)
    requires Addressable(r) && i < j < |UsableFrames([r], protected)|
    ensures UsableFrames([r], protected)[i] < UsableFrames([r], protected)[j]
  {
    assert UsableFrames([r][1..], protected) == [];
    assert UsableFrames([r], protected) == if r.kind == 1 then RegionFrames(r, protected, 0) else [];
    RegionUpwards(r, protected, 0, i, j);
  }

  lemma {:induction false} RegionUpwards(r: Region, protected: seq<ProtectedRegion>, k: nat, i: nat, j: nat)
    requires Addressable(r) && k % 4096 == 0 && i < j < |RegionFrames(r, protected, k)|
    ensures RegionFrames(r, protected, k)[i] < RegionFrames(r, protected, k)[j]
    decreases r.len - k
  {
    var rest := RegionFrames(r, protected, k + 4096);
    if !CheckFrame(r.addr + k, protected) {
      RegionUpwards(r, protected, k + 4096, i, j);
    } else if i > 0 {
      RegionUpwards(r, protected, k + 4096, i - 1, j - 1);
    } else {
      assert RegionFrames(r, protected, k)[j] == rest[j - 1];
      RegionMember(r, protected, k + 4096, rest[j - 1]);
    }
  }

  class FrameStack {
    const stack: array<Word>
    var esp: nat
    var size: nat

    ghost predicate Valid()
      reads this
    {
      esp <= size <= stack.Length
    }

    /** The frames still to be handed out, next one first. */
    ghost function Free(): seq<Word>
      reads this, stack
      requires Valid()
    {
      stack[esp..size]
    }

    constructor (capacity: nat)
      ensures Valid() && fresh(stack) && stack.Length == capacity && esp == 0 && size == 0
    {
      stack := new Word[capacity](_ => 0);
      esp, size := 0, 0;
    }

    /** k_frame_stack_pop, behind kfalloc: None is the "Out of memory" panic. */
    method Pop() returns (frame: Option<Word>)
      requires Valid()
      modifies this`esp
      ensures Valid() && size == old(size)
      ensures old(Free()) == [] ==> frame == None && esp == old(esp)
      ensures old(Free()) != [] ==> frame == Some(old(Free())[0]) && Free() == old(Free())[1..] && esp == old(esp) + 1
    {
      if esp >= size {
        return None;
      }
      var addr := stack[esp];
      esp := esp + 1;
      return Some(addr);
    }

    /** k_frame_stack_push, behind kffree. It has no check of its own: at index 0 the decrement would
        wrap around, so callers may only give back as many frames as were taken. */
    method Push(frame: Word)
      requires Valid() && (size > 0 ==> esp > 0)
      modifies this`esp, stack
      ensures Valid() && size == old(size)
      ensures size == 0 ==> Free() == old(Free())
      ensures size > 0 ==> Free() == [frame] + old(Free()) && esp == old(esp) - 1
    {
      if size == 0 {
        return;
      }
      esp := esp - 1;
      stack[esp] := frame;
    }

    /** The inner loop of init_pmm, for one usable region. */
    method StackRegion(r: Region, protected: seq<ProtectedRegion>)
      requires Valid() && Addressable(r) && size + |RegionFrames(r, protected, 0)| <= stack.Length
      modifies this`size, stack
      ensures Valid() && stack[..size] == old(stack[..size]) + RegionFrames(r, protected, 0)
    {
      ghost var before := stack[..size];
      var i := 0;
      assert before + RegionFrames(r, protected, 0) == stack[..size] + RegionFrames(r, protected, i);
      while i < r.len
        invariant Valid() && stack[..size] + RegionFrames(r, protected, i) == before + RegionFrames(r, protected, 0)
      {
        ghost var frames := stack[..size];
        if CheckFrame(r.addr + i, protected) {
          assert frames + RegionFrames(r, protected, i) ==
            (frames + [r.addr + i]) + RegionFrames(r, protected, i + 4096);
          assert |frames| < |before + RegionFrames(r, protected, 0)|;
          stack[size] := r.addr + i;
          size := size + 1;
          assert stack[..size] == frames + [r.addr + i];
        }
        i := i + 4096;
      }
    }

    /** init_pmm over the memory map. The stack must have room for every usable frame. */
    method Init(regions: seq<Region>, protected: seq<ProtectedRegion>)
      requires size == 0 && esp == 0
      requires forall i | 0 <= i < |regions| :: Addressable(regions[i])
      requires |UsableFrames(regions, protected)| <= stack.Length
      modifies this`size, stack
      ensures Valid() && Free() == UsableFrames(regions, protected)
    {
      ghost var all := UsableFrames(regions, protected);
      assert stack[..size] + UsableFrames(regions[0..], protected) == all;
      for n := 0 to |regions|
        invariant Valid() && stack[..size] + UsableFrames(regions[n..], protected) == all
      {
        assert regions[n..][0] == regions[n] && regions[n..][1..] == regions[n + 1..];
        ghost var frames, rest := stack[..size], UsableFrames(regions[n + 1..], protected);
        if regions[n].kind == 1 {
          assert frames + (RegionFrames(regions[n], protected, 0) + rest) ==
            (frames + RegionFrames(regions[n], protected, 0)) + rest == all;
          StackRegion(regions[n], protected);
        } else {
          assert [] + rest == rest;
        }
      }
    }
  }
}
