/** Byte-addressed memory of a process, and the in-band block header of alloc.c: a packed guard byte
    and three little-endian words, 13 bytes in all. */
module Bytes {
  import opened Words

  const RAM_SIZE: int := 0x1_0000_0000

  type Ram = m: seq<Byte> | |m| == 0x1_0000_0000 witness seq<Byte>(0x1_0000_0000, ZeroByte)

  function ZeroByte(a: nat): Byte { 0 }

  /** The `n` bytes at `a`, little-endian. */
  function Load(m: Ram, a: int, n: nat): nat
    requires 0 <= a && a + n <= RAM_SIZE
    decreases n
  {
    if n == 0 then 0 else m[a] + 256 * Load(m, a + 1, n - 1)
  }

  function Store(m: Ram, a: int, n: nat, w: nat): Ram
    requires 0 <= a && a + n <= RAM_SIZE
    decreases n
  {
    if n == 0 then m else Store(m[a := w % 256], a + 1, n - 1, w / 256)
  }

  lemma {:induction false} LoadSame(m: Ram, m': Ram, a: int, n: nat)
    requires 0 <= a && a + n <= RAM_SIZE && forall i | a <= i < a + n :: m[i] == m'[i]
    ensures Load(m, a, n) == Load(m', a, n)
    decreases n
  {
    if n > 0 {
      LoadSame(m, m', a + 1, n - 1);
    }
  }

  lemma {:induction false} StoreElsewhere(m: Ram, a: int, n: nat, w: nat)
    requires 0 <= a && a + n <= RAM_SIZE
    ensures forall i | 0 <= i < RAM_SIZE && !(a <= i < a + n) :: Store(m, a, n, w)[i] == m[i]
    decreases n
  {
    if n > 0 {
      StoreElsewhere(m[a := w % 256], a + 1, n - 1, w / 256);
    }
  }

  function Pow256(n: nat): nat { if n == 0 then 1 else 256 * Pow256(n - 1) }

  lemma {:induction false} LoadStored(m: Ram, a: int, n: nat, w: nat)
    requires 0 <= a && a + n <= RAM_SIZE && w < Pow256(n)
    ensures Load(Store(m, a, n, w), a, n) == w
    decreases n
  {
    if n > 0 {
      var m1 := m[a := w % 256];
      assert w / 256 < Pow256(n - 1);
      LoadStored(m1, a + 1, n - 1, w / 256);
      StoreElsewhere(m1, a + 1, n - 1, w / 256);
    }
  }

  lemma {:induction false} LoadBound(m: Ram, a: int, n: nat)
    requires 0 <= a && a + n <= RAM_SIZE
    ensures Load(m, a, n) < Pow256(n)
    decreases n
  {
    if n > 0 {
      LoadBound(m, a + 1, n - 1);
    }
  }

  const HEADER: int := 13 // sizeof(mem_t), packed

  datatype Header = Header(guard: Byte, size: Word, prev: Word, next: Word)

  function LoadWord(m: Ram, a: int): Word
    requires 0 <= a && a + 4 <= RAM_SIZE
  {
    LoadBound(m, a, 4);
    Load(m, a, 4)
  }

  function HeaderAt(m: Ram, b: int): Header
    requires 0 <= b && b + HEADER <= RAM_SIZE
  {
    Header(m[b], LoadWord(m, b + 1), LoadWord(m, b + 5), LoadWord(m, b + 9))
  }

  lemma StoreWord(m: Ram, a: int, w: Word)
    requires 0 <= a && a + 4 <= RAM_SIZE
    ensures LoadWord(Store(m, a, 4, w), a) == w
    ensures forall i | 0 <= i < RAM_SIZE && !(a <= i < a + 4) :: Store(m, a, 4, w)[i] == m[i]
    ensures forall c | 0 <= c && c + 4 <= RAM_SIZE && (c + 4 <= a || a + 4 <= c) ::
      LoadWord(Store(m, a, 4, w), c) == LoadWord(m, c)
  {
    StoreElsewhere(m, a, 4, w);
    LoadStored(m, a, 4, w);
    forall c | 0 <= c && c + 4 <= RAM_SIZE && (c + 4 <= a || a + 4 <= c)
      ensures LoadWord(Store(m, a, 4, w), c) == LoadWord(m, c)
    {
      LoadSame(Store(m, a, 4, w), m, c, 4);
    }
  }

  /** Where the fields are, and the order of their bytes. */
  lemma HeaderBytes(m: Ram, b: int)
    requires 0 <= b && b + 13 <= RAM_SIZE
    ensures var h := HeaderAt(m, b);
            && h.guard == m[b]
            && h.size == m[b + 1] as int + 0x100 * m[b + 2] as int + 0x1_0000 * m[b + 3] as int
                         + 0x100_0000 * m[b + 4] as int
            && h.prev == m[b + 5] as int + 0x100 * m[b + 6] as int + 0x1_0000 * m[b + 7] as int
                         + 0x100_0000 * m[b + 8] as int
            && h.next == m[b + 9] as int + 0x100 * m[b + 10] as int + 0x1_0000 * m[b + 11] as int
                         + 0x100_0000 * m[b + 12] as int
  {
    WordBytes(m, b + 1);
    WordBytes(m, b + 5);
    WordBytes(m, b + 9);
  }

  lemma WordBytes(m: Ram, a: int)
    requires 0 <= a && a + 4 <= RAM_SIZE
    ensures LoadWord(m, a) ==
      m[a] as int + 0x100 * m[a + 1] as int + 0x1_0000 * m[a + 2] as int + 0x100_0000 * m[a + 3] as int
  {
    assert Load(m, a + 4, 0) == 0;
    assert Load(m, a + 3, 1) == m[a + 3];
    assert Load(m, a + 2, 2) == m[a + 2] + 256 * Load(m, a + 3, 1);
    assert Load(m, a + 1, 3) == m[a + 1] + 256 * Load(m, a + 2, 2);
  }

  predicate Apart(b: int, c: int) { b + HEADER <= c || c + HEADER <= b }

  /** Only the header at `b` differs, and it is `h`. */
  ghost predicate HeaderSet(m: Ram, m': Ram, b: int, h: Header)
    requires 0 <= b && b + HEADER <= RAM_SIZE
  {
    && HeaderAt(m', b) == h
    && (forall c | 0 <= c && c + HEADER <= RAM_SIZE && Apart(b, c) :: HeaderAt(m', c) == HeaderAt(m, c))
    && (forall i | 0 <= i < RAM_SIZE && !(b <= i < b + HEADER) :: m'[i] == m[i])
  }

  lemma SetGuard(m: Ram, b: int, g: Byte)
    requires 0 <= b && b + HEADER <= RAM_SIZE
    ensures HeaderSet(m, m[b := g], b, HeaderAt(m, b).(guard := g))
  {
    var m' := m[b := g];
    forall c | 0 <= c && c + 4 <= RAM_SIZE && (c + 4 <= b || b < c)
      ensures LoadWord(m', c) == LoadWord(m, c)
    {
      LoadSame(m', m, c, 4);
    }
  }

  lemma SetSize(m: Ram, b: int, w: Word)
    requires 0 <= b && b + HEADER <= RAM_SIZE
    ensures HeaderSet(m, Store(m, b + 1, 4, w), b, HeaderAt(m, b).(size := w))
  {
    StoreWord(m, b + 1, w);
  }

  lemma SetPrev(m: Ram, b: int, w: Word)
    requires 0 <= b && b + HEADER <= RAM_SIZE
    ensures HeaderSet(m, Store(m, b + 5, 4, w), b, HeaderAt(m, b).(prev := w))
  {
    StoreWord(m, b + 5, w);
  }

  lemma SetNext(m: Ram, b: int, w: Word)
    requires 0 <= b && b + HEADER <= RAM_SIZE
    ensures HeaderSet(m, Store(m, b + 9, 4, w), b, HeaderAt(m, b).(next := w))
  {
    StoreWord(m, b + 9, w);
  }
}
