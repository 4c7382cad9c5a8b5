/** Physical memory as 4 KiB frames of 1024 words, and the processor's two-level walk over it
    (Intel SDM Volume 3A, section 4.3). */
module Mmu {
  import opened Words

  type Frame = s: seq<Word> | |s| == 1024 witness seq(1024, _ => 0)
  type Memory = m: seq<Frame> | |m| == 0x10_0000 witness seq<Frame>(0x10_0000, ClearFrame)

  function ClearFrame(f: nat): Frame { seq(1024, _ => 0) }

  function Poke(m: Memory, f: FrameNo, k: Index, x: Word): Memory
  {
    m[f := m[f][k := x]]
  }

  /** The table behind directory slot `i`, if the slot is present. */
  function Slot(m: Memory, d: FrameNo, i: Index): Option<FrameNo>
  {
    if Present(m[d][i]) then Some(FrameOf(m[d][i])) else None
  }

  /** The second-level entry for page `p`; meaningful if its directory slot is present. */
  function Leaf(m: Memory, d: FrameNo, p: PageNo): Word
  {
    m[FrameOf(m[d][p / 1024])][p % 1024]
  }

  /** The frame the processor reaches for page `p` under directory `d`. */
  function Translate(m: Memory, d: FrameNo, p: PageNo): Option<FrameNo>
  {
    if Slot(m, d, p / 1024).Some? && Present(Leaf(m, d, p)) then Some(FrameOf(Leaf(m, d, p))) else None
  }

  /** The frame behind slot 1023: the kernel's `table_mappings`. */
  function TablesOf(m: Memory, d: FrameNo): FrameNo { FrameOf(m[d][WINDOW]) }

  const ACCESSED: Byte := 0x20
  const DIRTY: Byte := 0x40

  /** An entry with one of the two flags set that the processor itself writes. */
  function Mark(e: Word, flag: Byte): (r: Word)
    requires flag == ACCESSED || flag == DIRTY
    ensures r / 256 == e / 256 && r % 2 == e % 2
  {
    var low: Byte := e % 256;
    var marked: Byte := if low / flag % 2 == 1 then low else low + flag;
    LowByte(e / 256, marked);
    LowByte(e / 256, low);
    256 * (e / 256) + marked
  }

  /** What an access to page `p` leaves in the two entries its walk uses (Intel SDM Volume 3A, section 4.8). */
  function Walked(m: Memory, d: FrameNo, p: PageNo, write: bool): Memory
  {
    var m1 := Poke(m, d, p / 1024, Mark(m[d][p / 1024], ACCESSED));
    var f := FrameOf(m1[d][p / 1024]);
    var m2 := Poke(m1, f, p % 1024, Mark(m1[f][p % 1024], ACCESSED));
    if write then Poke(m2, f, p % 1024, Mark(m2[f][p % 1024], DIRTY)) else m2
  }

  /** No table doubles as another table or as the directory. */
  ghost predicate Tree(m: Memory, d: FrameNo)
  {
    && (forall i: Index :: Slot(m, d, i) != Some(d))
    && (forall i: Index, k: Index :: i != k && Slot(m, d, i).Some? ==> Slot(m, d, i) != Slot(m, d, k))
  }

  /** The two copies of "where page table i lives" agree: each slot is present in the directory and in the
      frame behind slot 1023 alike and names the same frame there, and so slot 1023 maps that frame itself. */
  ghost predicate SelfMapped(m: Memory, d: FrameNo)
  {
    && Slot(m, d, WINDOW).Some?
    && (forall i: Index :: Slot(m, TablesOf(m, d), i) == Slot(m, d, i))
    && Tree(m, d)
  }

  /** A software walk: read the table's word through its page in the 0xFFC00000 window. */
  function WindowLeaf(m: Memory, d: FrameNo, i: Index, j: Index): Option<Word>
  {
    match Translate(m, d, PageAt(WINDOW, i))
    case None => None
    case Some(f) => Some(m[f][j])
  }

  /** Under a self-map the window shows exactly the tables the processor walks: the page for slot `i`
      is there if and only if the slot is present, and it shows that slot's table. */
  lemma WindowShowsTables(m: Memory, d: FrameNo, i: Index, j: Index)
    requires SelfMapped(m, d)
    ensures Translate(m, d, PageAt(WINDOW, i)) == Slot(m, d, i)
    ensures WindowLeaf(m, d, i, j) == if Slot(m, d, i).Some? then Some(Leaf(m, d, PageAt(i, j))) else None
  {
    assert Slot(m, TablesOf(m, d), i) == Slot(m, d, i);
  }
}
