/** Page-table words: the pure bit expressions of paging.c, as arithmetic on 32-bit words. */
module Words {
  import opened Arithmetic

  datatype Option<+T> = None | Some(value: T)

  type Word = x: int | 0 <= x < 0x1_0000_0000
  type Byte = x: int | 0 <= x < 0x100
  type Index = x: int | 0 <= x < 0x400       // a slot of a 1024-entry table
  type FrameNo = x: int | 0 <= x < 0x10_0000 // a 4 KiB frame of the 32-bit physical space
  type PageNo = x: int | 0 <= x < 0x10_0000  // a 4 KiB page of the 32-bit virtual space

  const PAGE_PRESENT: Byte := 0x1
  const PAGE_RW: Byte := 0x2
  const PAGE_USER: Byte := 0x4
  const KERNEL_PT_MAP: Word := 0xFFC0_0000
  const WINDOW: Index := 1023 // the directory slot that backs KERNEL_PT_MAP

  /** Bitwise or of the low byte of an address with the flag byte. */
  function Or(a: nat, b: nat): (r: nat)
    ensures r % 2 == 1 <==> a % 2 == 1 || b % 2 == 1
    decreases a + b
  {
    if a == 0 && b == 0 then 0
    else
      var high := Or(a / 2, b / 2);
      (if a % 2 == 1 || b % 2 == 1 then 1 else 0) + 2 * high
  }

  lemma {:induction false} OrBound(a: nat, b: nat, n: nat)
    requires a < n && b < n
    requires n == 1 || n == 2 || n == 4 || n == 8 || n == 16 || n == 32 || n == 64 || n == 128 || n == 256
    ensures Or(a, b) < n
    decreases n
  {
    if n > 1 {
      OrBound(a / 2, b / 2, n / 2);
    }
  }

  lemma {:induction false} OrZero(b: nat)
    ensures Or(0, b) == b
    decreases b
  {
    if b > 0 {
      OrZero(b / 2);
    }
  }

  /** Bit number `k` of a number. */
  predicate Bit(a: nat, k: nat)
  {
    if k == 0 then a % 2 == 1 else Bit(a / 2, k - 1)
  }

  lemma {:induction false} OrBits(a: nat, b: nat, k: nat)
    ensures Bit(Or(a, b), k) <==> Bit(a, k) || Bit(b, k)
    decreases k
  {
    if a == 0 && b == 0 {
      ZeroBits(k);
    } else if k > 0 {
      OrBits(a / 2, b / 2, k - 1);
      assert Or(a, b) / 2 == Or(a / 2, b / 2);
    }
  }

  lemma {:induction false} ZeroBits(k: nat)
    ensures !Bit(0, k)
  {
    if k > 0 {
      ZeroBits(k - 1);
    }
  }

  /** The bits of `n * high + low` for n = 2^j: the lower j are those of `low`, the others those of `high`. */
  lemma {:induction false} JoinedBits(high: nat, low: nat, n: nat, j: nat, k: nat)
    requires low < n
    requires j <= 8 && n == [1, 2, 4, 8, 16, 32, 64, 128, 256][j]
    ensures Bit(n * high + low, k) <==> if k < j then Bit(low, k) else Bit(high, k - j)
    decreases j
  {
    if j > 0 {
      assert (n * high + low) / 2 == n / 2 * high + low / 2 && (n * high + low) % 2 == low % 2;
      if k > 0 {
        JoinedBits(high, low / 2, n / 2, j - 1, k - 1);
      }
    }
  }

  lemma LowByte(high: nat, low: nat)
    requires low < 256
    ensures (256 * high + low) / 256 == high && (256 * high + low) % 256 == low && (256 * high + low) % 2 == low % 2
  {
  }

  /** pd_entry and pt_entry: `addr | flags`. */
  function PtEntry(addr: Word, flags: Byte): (e: Word)
    ensures e / 256 == addr / 256
    ensures e % 2 == 1 <==> addr % 2 == 1 || flags % 2 == 1
    ensures addr % 256 == 0 ==> e == addr + flags
  {
    var low := Or(addr % 256, flags);
    OrBound(addr % 256, flags, 256);
    OrZero(flags);
    LowByte(addr / 256, low);
    LowByte(addr / 256, addr % 256);
    256 * (addr / 256) + low
  }

  /** Every bit of the entry, the flags being the low eight. */
  lemma EntryBits(addr: Word, flags: Byte, k: nat)
    ensures Bit(PtEntry(addr, flags), k) <==> Bit(addr, k) || Bit(flags, k)
  {
    var low, high := Or(addr % 256, flags), addr / 256;
    OrBound(addr % 256, flags, 256);
    OrBits(addr % 256, flags, k);
    JoinedBits(high, low, 256, 8, k);
    JoinedBits(high, addr % 256, 256, 8, k);
    JoinedBits(0, flags, 256, 8, k);
    if k >= 8 {
      ZeroBits(k - 8);
    }
  }

  /** `entry & 0xFF` and `entry & 0xFFFFFF00`: what the kernel reads back. */
  function Flags(e: Word): Byte { e % 256 }

  function Address(e: Word): Word { e - e % 256 }

  /** What the processor reads: bit 0, and bits 31..12. */
  predicate Present(e: Word) { e % 2 == 1 }

  function FrameOf(e: Word): FrameNo { e / 4096 }

  lemma FrameOfAddress(e: Word)
    ensures FrameOf(Address(e)) == FrameOf(e) && Present(Address(e)) == false
  {
    LowByte(e / 256, e % 256);
    LowByte(e / 256, 0);
    assert Address(e) == 256 * (e / 256);
    assert e / 4096 == e / 256 / 16;
  }

  lemma ReadBackAligned(e: Word)
    requires e % 4096 < 256
    ensures Address(e) % 4096 == 0 && Address(e) == 4096 * (e / 4096) && FrameOf(Address(e)) == FrameOf(e)
  {
    LowByte(16 * (e / 4096), e % 4096);
  }

  /** A page-aligned address is determined by its frame. */
  lemma AlignedBase(a: Word)
    requires a % 4096 == 0
    ensures a == 4096 * (FrameOf(a) as int) && a % 256 == 0
  {
    DivMod(a, 256, 16 * (a / 4096), 0);
  }

  /** The entry for a page-aligned frame holds the frame and the flags, and nothing else. */
  lemma AlignedEntry(a: Word, flags: Byte)
    requires a % 4096 == 0
    ensures FrameOf(PtEntry(a, flags)) == FrameOf(a) && PtEntry(a, flags) % 4096 == flags
    ensures Present(PtEntry(a, flags)) <==> flags % 2 == 1
  {
    AlignedBase(a);
    DivMod(a, 2, 2048 * (a / 4096), 0);
    DivMod(a + flags, 4096, a / 4096, flags);
  }

  function FrameBase(f: FrameNo): (a: Word)
    ensures FrameOf(a) == f && a % 4096 == 0
  {
    var n: int := f;
    4096 * n
  }

  function VAddrToPde(v: Word): Index { v / 0x40_0000 }

  function VAddrToPte(v: Word): Index { v / 0x1000 % 0x400 }

  function PageOf(v: Word): PageNo { v / 0x1000 }

  function WordIn(v: Word): Index { v % 0x1000 / 4 }

  function PageAt(i: Index, j: Index): (p: PageNo)
    ensures p / 1024 == i && p % 1024 == j
  {
    DivMod(1024 * i + j, 1024, i, j);
    1024 * i + j
  }

  lemma PageSplit(v: Word)
    ensures PageOf(v) == PageAt(VAddrToPde(v), VAddrToPte(v))
    ensures PageOf(v) / 1024 == VAddrToPde(v) && PageOf(v) % 1024 == VAddrToPte(v)
  {
    var p := v / 0x1000;
    DivMod(v, 0x40_0000, p / 0x400, 0x1000 * (p % 0x400) + v % 0x1000);
  }

  /** `(i << 22) | (j << 12)`. */
  function PageBase(i: Index, j: Index): (a: Word)
    ensures PageOf(a) == PageAt(i, j) && VAddrToPde(a) == i && a % 4096 == 0
  {
    var base: int := 0x40_0000 * i + 0x1000 * j;
    assert base == 4096 * (1024 * i + j);
    base
  }

  /** `base[k]` for a page-aligned pointer. */
  function At(base: Word, k: Index): (a: Word)
    requires base % 4096 == 0
    ensures PageOf(a) == PageOf(base) && WordIn(a) == k && a % 4 == 0
  {
    var offset: int := 4 * k;
    base + offset
  }

  /** The window address of word `j` of the table behind directory slot `i`. */
  function WindowAddress(i: Index, j: Index): (a: Word)
    ensures PageOf(a) == PageAt(WINDOW, i) && WordIn(a) == j && a % 4 == 0
  {
    KERNEL_PT_MAP + 4096 * i + 4 * j
  }

  /** The kernel reads eight flag bits where the processor ignores four more address bits. Reading
      an entry back gives the frame's base exactly when bits 8..11 of the mapped address are clear. */
  lemma ReadBack(addr: Word, flags: Byte)
    ensures FrameOf(PtEntry(addr, flags)) == addr / 4096
    ensures Address(PtEntry(addr, flags)) == addr - addr % 256
    ensures Address(PtEntry(addr, flags)) == 4096 * FrameOf(PtEntry(addr, flags)) <==> addr % 4096 < 256
    ensures addr % 256 == 0 ==> Flags(PtEntry(addr, flags)) == flags
  {
    var e := PtEntry(addr, flags);
    assert addr % 256 == 0 ==> e % 256 == flags;
    assert e / 4096 == e / 256 / 16;
  }
}
