/** The user heap of alloc.c as a set of blocks and a free list, and what its operations do to them. */
module HeapModel {
  import opened Words
  import opened Bytes

  const USER_HEAP: int := 0xD000_0000
  const LIVE_LINK: Word := 0xAABB_CCDD
  const GUARD: Byte := 0xED

  /** The size of every block by its header's address, the free blocks in list order, and the end of
      the blocks: `heap_start`. */
  datatype Model = Model(sizes: map<int, int>, free: seq<int>, top: int)

  function End(sizes: map<int, int>, b: int): int
    requires b in sizes
  {
    b + HEADER + sizes[b]
  }

  /** Block `b` ends at the top or where another block starts. */
  predicate Chained(sizes: map<int, int>, top: int, b: int)
    requires b in sizes
  {
    End(sizes, b) == top || End(sizes, b) in sizes
  }

  /** No two blocks overlap. */
  ghost predicate Disjoint(sizes: map<int, int>)
  {
    forall b, c {:trigger Ordered(sizes, b, c)} | b in sizes && c in sizes :: Ordered(sizes, b, c)
  }

  /** Block `b` ends before block `c` if it starts before it. */
  predicate Ordered(sizes: map<int, int>, b: int, c: int)
    requires b in sizes
  {
    b < c ==> End(sizes, b) <= c
  }

  /** The blocks tile [USER_HEAP, top): the first starts at USER_HEAP, each ends where another starts or
      at the top, and no two overlap. */
  ghost predicate Tiled(sizes: map<int, int>, top: int)
  {
    && USER_HEAP <= top
    && (top == USER_HEAP || USER_HEAP in sizes)
    && (forall b {:trigger Chained(sizes, top, b)} | b in sizes :: Chained(sizes, top, b))
    && (forall b | b in sizes :: USER_HEAP <= b && sizes[b] >= 1 && b + HEADER + sizes[b] <= top)
    && Disjoint(sizes)
  }

  /** Strictly ascending, with room for a header between neighbours. */
  ghost predicate Spaced(s: seq<int>)
  {
    forall i, j | 0 <= i < j < |s| :: s[i] + HEADER <= s[j]
  }

  ghost predicate WellFormed(h: Model)
  {
    match h
    case Model(sizes, free, top) =>
      Tiled(sizes, top) && Spaced(free) && forall k | 0 <= k < |free| :: free[k] in sizes
  }

  /** Handed out and not given back. */
  predicate Live(h: Model, b: int) { b in h.sizes && b !in h.free }

  /** Address `a` is a byte a caller of malloc owns. */
  ghost predicate Owned(h: Model, a: int)
  {
    exists b {:trigger Live(h, b)} :: Live(h, b) && b + HEADER <= a < End(h.sizes, b)
  }

  /** Position of `b` in an ascending list. */
  function Insert(s: seq<int>, b: int): seq<int>
  {
    if s == [] || s[0] > b then [b] + s else [s[0]] + Insert(s[1..], b)
  }

  lemma {:induction false} InsertAt(s: seq<int>, k: nat, b: int)
    requires k <= |s| && (forall i | 0 <= i < k :: s[i] < b) && (k < |s| ==> b < s[k])
    ensures Insert(s, b) == s[..k] + [b] + s[k..]
  {
    if k > 0 {
      InsertAt(s[1..], k - 1, b);
      assert [s[0]] + (s[1..][..k - 1] + [b] + s[1..][k - 1..]) == s[..k] + [b] + s[k..];
    } else {
      assert s[..0] + [b] + s[0..] == [b] + s;
    }
  }

  lemma {:induction false} FindPlace(s: seq<int>, b: int) returns (k: nat)
    requires Spaced(s) && forall i | 0 <= i < |s| :: Apart(b, s[i])
    ensures k <= |s| && (forall i | 0 <= i < k :: s[i] + HEADER <= b) && (forall i | k <= i < |s| :: b + HEADER <= s[i])
    ensures Insert(s, b) == s[..k] + [b] + s[k..]
  {
    k := 0;
    while k < |s| && s[k] < b
      invariant k <= |s| && forall i | 0 <= i < k :: s[i] + HEADER <= b
    {
      k := k + 1;
    }
    assert k < |s| ==> forall i | k < i < |s| :: s[k] + HEADER <= s[i];
    InsertAt(s, k, b);
  }

  lemma InsertSpaced(s: seq<int>, b: int)
    requires Spaced(s) && forall i | 0 <= i < |s| :: Apart(b, s[i])
    ensures Spaced(Insert(s, b)) && |Insert(s, b)| == |s| + 1
  {
    var k := FindPlace(s, b);
    var t := s[..k] + [b] + s[k..];
    forall i, j | 0 <= i < j < |t|
      ensures t[i] + HEADER <= t[j]
    {
      var x := if i < k then s[i] else if i == k then b else s[i - 1];
      var y := if j < k then s[j] else if j == k then b else s[j - 1];
      assert t[i] == x && t[j] == y;
    }
  }

  lemma {:induction false} InsertMember(s: seq<int>, b: int, c: int)
    ensures c in Insert(s, b) <==> c == b || c in s
  {
    if s != [] && s[0] <= b {
      InsertMember(s[1..], b, c);
    }
  }

  function Without(s: seq<int>, k: nat): seq<int>
    requires k < |s|
  {
    s[..k] + s[k + 1..]
  }

  lemma WithoutSpaced(s: seq<int>, k: nat)
    requires k < |s| && Spaced(s)
    ensures Spaced(Without(s, k))
    ensures forall c :: c in Without(s, k) <==> c in s && c != s[k]
  {
    var t := Without(s, k);
    assert forall i | 0 <= i < |t| :: t[i] == if i < k then s[i] else s[i + 1];
    forall c | c in s && c != s[k]
      ensures c in t
    {
      var i :| 0 <= i < |s| && s[i] == c;
      assert t[if i < k then i else i - 1] == c;
    }
  }

  /** A free block serves a request if it has exactly its size, or can be split with something left. */
  predicate Fits(have: int, size: int) { have == size || have > size + HEADER }

  /** The first free block that fits, from position `k` on; |free| if none does. */
  function FirstFit(h: Model, size: int, k: nat): (r: nat)
    requires k <= |h.free| && forall i | 0 <= i < |h.free| :: h.free[i] in h.sizes
    ensures k <= r <= |h.free| && (r < |h.free| ==> Fits(h.sizes[h.free[r]], size))
    ensures forall i | k <= i < r :: !Fits(h.sizes[h.free[i]], size)
    decreases |h.free| - k
  {
    if k == |h.free| || Fits(h.sizes[h.free[k]], size) then k else FirstFit(h, size, k + 1)
  }

  /** The blocks after block `b` is split for `size` bytes. */
  function Split(sizes: map<int, int>, b: int, size: int): map<int, int>
    requires b in sizes
  {
    sizes[b := size][b + HEADER + size := sizes[b] - size - HEADER]
  }

  /** Block `b`, off the list, is cut to `size` bytes and the rest goes back on the list. */
  function PutBack(h: Model, b: int, size: int): Model
    requires b in h.sizes
  {
    Model(Split(h.sizes, b, size), Insert(h.free, b + HEADER + size), h.top)
  }

  /** Free block number `k` leaves the list; what it has beyond the request becomes a free block. */
  function Take(h: Model, k: nat, size: int): Model
    requires k < |h.free| && h.free[k] in h.sizes
  {
    var b, h1 := h.free[k], h.(free := Without(h.free, k));
    if h.sizes[b] == size then h1 else PutBack(h1, b, size)
  }

  /** The block malloc hands out for a non-zero size: a free one, or a new one at the top. */
  function Chosen(h: Model, size: int): int
    requires forall i | 0 <= i < |h.free| :: h.free[i] in h.sizes
  {
    var k := FirstFit(h, size, 0);
    if k < |h.free| then h.free[k] else h.top
  }

  function Malloc(h: Model, size: int): Model
    requires forall i | 0 <= i < |h.free| :: h.free[i] in h.sizes
  {
    var k := FirstFit(h, size, 0);
    if k < |h.free| then Take(h, k, size)
    else h.(sizes := h.sizes[h.top := size], top := h.top + HEADER + size)
  }

  function Free(h: Model, b: int): Model { h.(free := Insert(h.free, b)) }

  lemma GrowTiled(sizes: map<int, int>, top: int, size: int)
    requires Tiled(sizes, top) && size >= 1
    ensures top !in sizes && Tiled(sizes[top := size], top + HEADER + size)
  {
    var sizes', top' := sizes[top := size], top + HEADER + size;
    forall b | b in sizes'
      ensures Chained(sizes', top', b)
    {
      assert b != top ==> Chained(sizes, top, b);
    }
    forall b, c | b in sizes' && c in sizes'
      ensures Ordered(sizes', b, c)
    {
      assert b != top && c != top ==> Ordered(sizes, b, c);
    }
  }

  lemma SplitDisjoint(sizes: map<int, int>, b: int, size: int)
    requires Disjoint(sizes) && b in sizes && size >= 1 && sizes[b] > size + HEADER
    requires forall c | c in sizes :: sizes[c] >= 1
    ensures b + HEADER + size !in sizes && Disjoint(Split(sizes, b, size))
    ensures forall c | c in sizes :: Apart(b + HEADER + size, c)
  {
    var rest, sizes' := b + HEADER + size, Split(sizes, b, size);
    forall c | c in sizes
      ensures Apart(rest, c)
    {
      assert Ordered(sizes, b, c) && Ordered(sizes, c, b);
    }
    forall c, e | c in sizes' && e in sizes'
      ensures Ordered(sizes', c, e)
    {
      if c != rest && e != rest {
        assert Ordered(sizes, c, e) && sizes'[c] <= sizes[c];
      } else if c == rest && e != rest {
        assert Ordered(sizes, b, e);
      } else if c != rest && c != b {
        assert Ordered(sizes, c, b) && Ordered(sizes, b, c);
      }
    }
  }

  lemma SplitTiled(sizes: map<int, int>, top: int, b: int, size: int)
    requires Tiled(sizes, top) && b in sizes && size >= 1 && sizes[b] > size + HEADER
    ensures b + HEADER + size !in sizes && Tiled(Split(sizes, b, size), top)
    ensures forall c | c in sizes :: Apart(b + HEADER + size, c)
  {
    var rest, sizes' := b + HEADER + size, Split(sizes, b, size);
    SplitDisjoint(sizes, b, size);
    forall c | c in sizes'
      ensures Chained(sizes', top, c)
    {
      assert Chained(sizes, top, if c == rest then b else c);
    }
  }

  lemma TakeFreeList(h: Model, k: nat, size: int)
    requires WellFormed(h) && size >= 1 && k < |h.free| && Fits(h.sizes[h.free[k]], size)
    ensures var b := h.free[k];
            var rest := b + HEADER + size;
            && Spaced(Take(h, k, size).free) && b != rest
            && (h.sizes[b] != size ==> rest !in h.sizes)
            && (forall c ::
                  c in Take(h, k, size).free <==> (c in h.free && c != b) || (h.sizes[b] != size && c == rest))
  {
    var b, s := h.free[k], Without(h.free, k);
    var rest := b + HEADER + size;
    WithoutSpaced(h.free, k);
    if h.sizes[b] != size {
      SplitTiled(h.sizes, h.top, b, size);
      forall i | 0 <= i < |s|
        ensures Apart(rest, s[i])
      {
        assert s[i] in s;
        var n :| 0 <= n < |h.free| && h.free[n] == s[i];
      }
      InsertSpaced(s, rest);
      forall c
        ensures c in Insert(s, rest) <==> c == rest || c in s
      {
        InsertMember(s, rest, c);
      }
    }
  }

  lemma TakeKeeps(h: Model, k: nat, size: int)
    requires WellFormed(h) && size >= 1 && k < |h.free| && Fits(h.sizes[h.free[k]], size)
    ensures WellFormed(Take(h, k, size))
    ensures forall c :: Live(Take(h, k, size), c) <==> Live(h, c) || c == h.free[k]
    ensures forall c | c in h.sizes && c != h.free[k] :: Take(h, k, size).sizes[c] == h.sizes[c]
  {
    var h' := Take(h, k, size);
    TakeFreeList(h, k, size);
    if h.sizes[h.free[k]] != size {
      SplitTiled(h.sizes, h.top, h.free[k], size);
    }
    forall i | 0 <= i < |h'.free|
      ensures h'.free[i] in h'.sizes
    {
      assert h'.free[i] in h'.free;
      if h'.free[i] in h.free {
        var n :| 0 <= n < |h.free| && h.free[n] == h'.free[i];
      }
    }
  }

  /** malloc keeps the heap well formed; it makes one more block live, of the size asked for, and leaves
      every live block live at the size it had. */
  lemma MallocKeeps(h: Model, size: int)
    requires WellFormed(h) && size >= 1
    ensures WellFormed(Malloc(h, size))
    ensures !Live(h, Chosen(h, size)) && Live(Malloc(h, size), Chosen(h, size))
    ensures Malloc(h, size).sizes[Chosen(h, size)] == size
    ensures forall c | Live(h, c) :: Live(Malloc(h, size), c) && Malloc(h, size).sizes[c] == h.sizes[c]
    ensures forall c | Live(Malloc(h, size), c) :: c == Chosen(h, size) || Live(h, c)
  {
    var k := FirstFit(h, size, 0);
    if k < |h.free| {
      TakeKeeps(h, k, size);
    } else {
      GrowTiled(h.sizes, h.top, size);
      assert forall i | 0 <= i < |h.free| :: h.free[i] in h.sizes;
    }
  }

  /** Block `c` is the lowest free one that has exactly `n` bytes, or more than `n` and a header of 13; if there
      is none, it is new, at the top. */
  ghost predicate LowestFit(h: Model, n: int, c: int)
    requires forall b | b in h.free :: b in h.sizes
  {
    if exists b :: b in h.free && (h.sizes[b] == n || h.sizes[b] > n + 13) then
      && c in h.free && (h.sizes[c] == n || h.sizes[c] > n + 13)
      && forall b | b in h.free && (h.sizes[b] == n || h.sizes[b] > n + 13) :: c <= b
    else c == h.top
  }

  lemma FirstOfList(h: Model, size: int)
    requires WellFormed(h)
    ensures var k := FirstFit(h, size, 0);
            && (k < |h.free| ==> forall c | c in h.free && c < h.free[k] :: !Fits(h.sizes[c], size))
            && (k == |h.free| ==> forall c | c in h.free :: !Fits(h.sizes[c], size))
  {
    var k := FirstFit(h, size, 0);
    forall c | c in h.free && (k < |h.free| ==> c < h.free[k])
      ensures !Fits(h.sizes[c], size)
    {
      var i :| 0 <= i < |h.free| && h.free[i] == c;
      assert k < |h.free| ==> i < k;
    }
  }

  /** Which block malloc takes: the lowest free one that has exactly the size, or more than the size and a header
      of 13 bytes, whose rest becomes a free block; only without one a new block, at the top. */
  lemma MallocChooses(h: Model, n: int)
    requires WellFormed(h) && n >= 1
    ensures var c, h' := Chosen(h, n), Malloc(h, n);
            if exists b :: b in h.free && (h.sizes[b] == n || h.sizes[b] > n + 13) then
              && h'.top == h.top && c in h.free && (h.sizes[c] == n || h.sizes[c] > n + 13)
              && (forall b | b in h.free && (h.sizes[b] == n || h.sizes[b] > n + 13) :: c <= b)
              && h'.sizes == (if h.sizes[c] == n then h.sizes
                              else h.sizes[c := n][c + 13 + n := h.sizes[c] - n - 13])
              && (forall b :: b in h'.free <==> (b in h.free && b != c) || (h.sizes[c] != n && b == c + 13 + n))
            else
              c == h.top && h'.top == h.top + 13 + n && h'.sizes == h.sizes[c := n] && h'.free == h.free
  {
    FirstOfList(h, n);
    var k := FirstFit(h, n, 0);
    if k < |h.free| {
      assert h.free[k] in h.free;
      TakeFreeList(h, k, n);
      var b := h.free[k];
      assert Fits(h.sizes[b], n);
      assert Take(h, k, n).sizes == if h.sizes[b] == n then h.sizes else Split(h.sizes, b, n);
    }
  }

  lemma ChosenLowest(h: Model, n: int)
    requires WellFormed(h) && n >= 1
    ensures LowestFit(h, n, Chosen(h, n))
  {
    MallocChooses(h, n);
  }

  /** free moves one live block to the free list. */
  lemma FreeKeeps(h: Model, b: int)
    requires WellFormed(h) && Live(h, b)
    ensures WellFormed(Free(h, b)) && Free(h, b).sizes == h.sizes
    ensures forall c :: Live(Free(h, b), c) <==> Live(h, c) && c != b
  {
    forall i | 0 <= i < |h.free|
      ensures Apart(b, h.free[i])
    {
      assert h.free[i] in h.free;
      assert Ordered(h.sizes, b, h.free[i]) && Ordered(h.sizes, h.free[i], b);
    }
    InsertSpaced(h.free, b);
    forall c
      ensures c in Free(h, b).free <==> c == b || c in h.free
    {
      InsertMember(h.free, b, c);
    }
    assert forall i | 0 <= i < |Free(h, b).free| :: Free(h, b).free[i] in Free(h, b).free;
  }

  /** Freed memory is reused: a request that the block just freed can serve does not move the top. */
  lemma FreeThenMalloc(h: Model, b: int, n: int)
    requires WellFormed(h) && Live(h, b) && n >= 1 && (h.sizes[b] == n || h.sizes[b] > n + 13)
    ensures WellFormed(Free(h, b)) && Malloc(Free(h, b), n).top == h.top && Chosen(Free(h, b), n) <= b
  {
    FreeKeeps(h, b);
    InsertMember(h.free, b, b);
    MallocChooses(Free(h, b), n);
  }

  /** Blocks never overlap, headers included. */
  lemma BlocksDisjoint(h: Model, b: int, c: int, a: int)
    requires WellFormed(h) && b in h.sizes && c in h.sizes && b <= a < End(h.sizes, b) && c <= a < End(h.sizes, c)
    ensures b == c
  {
    assert Ordered(h.sizes, b, c) && Ordered(h.sizes, c, b);
  }

  /** Every address from block `from` to the top belongs to some block. */
  lemma {:induction false} Covered(h: Model, from: int, a: int) returns (b: int)
    requires WellFormed(h) && from in h.sizes && from <= a < h.top
    ensures b in h.sizes && b <= a < End(h.sizes, b)
    decreases h.top - from
  {
    if a < End(h.sizes, from) {
      b := from;
    } else {
      assert Chained(h.sizes, h.top, from);
      b := Covered(h, End(h.sizes, from), a);
    }
  }

  /** What a client does: the four calls, and its own stores. */
  datatype Request =
    | Alloc(size: Word)
    | AllocClear(num: Word, each: Word)
    | Resize(held: Word, size: Word)
    | Release(p: Word)
    | Put(a: int, v: Byte)

  function AllocIf(h: Model, size: int): Model
    requires forall i | 0 <= i < |h.free| :: h.free[i] in h.sizes
  {
    if size == 0 then h else Malloc(h, size)
  }

  /** free ignores what is not the pointer of a live block. */
  function FreeIf(h: Model, p: int): Model
  {
    if Live(h, p - HEADER) then Free(h, p - HEADER) else h
  }

  /** calloc's size: the product is taken in 32 bits. */
  function Product(num: Word, each: Word): (n: Word)
    ensures n == num * each <==> num * each < 0x1_0000_0000
  {
    assert num * each >= 0;
    num * each % 0x1_0000_0000
  }

  /** What becomes of the blocks in one step of the client; realloc is malloc, then free. */
  function Serve(h: Model, r: Request): (h': Model)
    requires forall i | 0 <= i < |h.free| :: h.free[i] in h.sizes
  {
    match r
    case Alloc(size) => AllocIf(h, size)
    case AllocClear(num, each) => AllocIf(h, Product(num, each))
    case Resize(held, size) => FreeIf(AllocIf(h, size), held)
    case Release(p) => FreeIf(h, p)
    case Put(_, _) => h
  }

  const EMPTY := Model(map[], [], USER_HEAP)

  /** A client may free null and any pointer malloc has ever returned, resize what it holds, and store into
      what it holds. */
  ghost predicate Proper(h: Model, r: Request)
  {
    match r
    case Alloc(_) => true
    case AllocClear(_, _) => true
    case Resize(held, _) => Live(h, held - HEADER)
    case Release(p) => p == 0 || p - HEADER in h.sizes
    case Put(a, _) => Owned(h, a)
  }

  /** Block `b` is given back. */
  predicate Ends(r: Request, b: int)
  {
    match r
    case Alloc(_) => false
    case AllocClear(_, _) => false
    case Resize(held, _) => held == b + HEADER
    case Release(p) => p == b + HEADER
    case Put(_, _) => false
  }

  /** Address `a` holds `v` before the steps `rs`; what the client's own stores make of it. */
  function LastPut(rs: seq<Request>, a: int, v: Byte): Byte
    decreases |rs|
  {
    if rs == [] then v else LastPut(rs[1..], a, if rs[0].Put? && rs[0].a == a then rs[0].v else v)
  }

  /** `h'` is reached from `h` by a client's calls `rs`. */
  ghost predicate Served(h: Model, rs: seq<Request>, h': Model)
    decreases |rs|
  {
    if rs == [] then h' == h
    else WellFormed(h) && Proper(h, rs[0]) && Served(Serve(h, rs[0]), rs[1..], h')
  }

  /** The bytes a step asks for. */
  function Asked(r: Request): nat
  {
    match r
    case Alloc(size) => size
    case AllocClear(num, each) => Product(num, each)
    case Resize(_, size) => size
    case Release(_) => 0
    case Put(_, _) => 0
  }

  lemma AllocKeeps(h: Model, size: int)
    requires WellFormed(h) && size >= 0
    ensures WellFormed(AllocIf(h, size))
    ensures forall c | Live(h, c) :: Live(AllocIf(h, size), c) && AllocIf(h, size).sizes[c] == h.sizes[c]
    ensures forall c | c in h.sizes :: c in AllocIf(h, size).sizes
  {
    if size > 0 {
      MallocKeeps(h, size);
    }
  }

  lemma FreeIfKeeps(h: Model, p: int)
    requires WellFormed(h)
    ensures WellFormed(FreeIf(h, p)) && FreeIf(h, p).sizes == h.sizes
    ensures forall c :: Live(FreeIf(h, p), c) <==> Live(h, c) && p != c + HEADER
  {
    if Live(h, p - HEADER) {
      FreeKeeps(h, p - HEADER);
    }
  }

  lemma ServeKeeps(h: Model, r: Request)
    requires WellFormed(h)
    ensures WellFormed(Serve(h, r))
    ensures forall c | Live(h, c) && !Ends(r, c) :: Live(Serve(h, r), c) && Serve(h, r).sizes[c] == h.sizes[c]
    ensures forall c | c in h.sizes :: c in Serve(h, r).sizes
  {
    match r
    case Alloc(size) => AllocKeeps(h, size);
    case AllocClear(num, each) => AllocKeeps(h, Product(num, each));
    case Resize(held, size) =>
      AllocKeeps(h, size);
      FreeIfKeeps(AllocIf(h, size), held);
    case Release(p) => FreeIfKeeps(h, p);
    case Put(_, _) =>
  }

  /** In every run the heap stays tiled and the free list sorted, and a block that is not given back keeps its
      place and its size. */
  lemma {:induction false} RunKeeps(h: Model, rs: seq<Request>, h': Model)
    requires WellFormed(h) && Served(h, rs, h')
    ensures WellFormed(h')
    ensures forall c | Live(h, c) && !EndsIn(rs, c) :: Live(h', c) && h'.sizes[c] == h.sizes[c]
    decreases |rs|
  {
    if rs != [] {
      ServeKeeps(h, rs[0]);
      RunKeeps(Serve(h, rs[0]), rs[1..], h');
      forall c | Live(h, c) && !EndsIn(rs, c)
        ensures Live(h', c) && h'.sizes[c] == h.sizes[c]
      {
        NotEnded(rs, c);
      }
    }
  }

  /** Where byte `i` of block `b` is after the steps `rs`, given as its block, and what it holds if it held `v`
      before: a store of the client changes it, a resize carries it over to the new block, and a release or a
      size that does not reach it ends it. */
  ghost function Traced(h: Model, rs: seq<Request>, b: int, i: nat, v: Byte): Option<(int, Byte)>
    requires WellFormed(h)
    decreases |rs|
  {
    if rs == [] then Some((b, v))
    else
      ServeKeeps(h, rs[0]);
      var h', rest := Serve(h, rs[0]), rs[1..];
      match rs[0]
      case Alloc(_) => Traced(h', rest, b, i, v)
      case AllocClear(_, _) => Traced(h', rest, b, i, v)
      case Resize(held, size) =>
        if held - 13 != b then Traced(h', rest, b, i, v)
        else if i < size then Traced(h', rest, Chosen(h, size), i, v) else None
      case Release(p) => if p - 13 == b then None else Traced(h', rest, b, i, v)
      case Put(a, w) => Traced(h', rest, b, i, if a == b + 13 + i then w else v)
  }

  lemma TracedStays(h: Model, rs: seq<Request>, b: int, i: nat, v: Byte)
    requires WellFormed(h) && rs != [] && !Ends(rs[0], b)
    ensures var h', v' := Serve(h, rs[0]), if rs[0].Put? && rs[0].a == b + HEADER + i then rs[0].v else v;
            WellFormed(h') && Traced(h, rs, b, i, v) == Traced(h', rs[1..], b, i, v')
  {
    ServeKeeps(h, rs[0]);
  }

  lemma TracedMoves(h: Model, rs: seq<Request>, i: nat, v: Byte)
    requires WellFormed(h) && rs != [] && rs[0].Resize?
    ensures var h', b := Serve(h, rs[0]), rs[0].held - HEADER;
            WellFormed(h') && Traced(h, rs, b, i, v) ==
              if i < rs[0].size then Traced(h', rs[1..], Chosen(h, rs[0].size), i, v) else None
  {
    ServeKeeps(h, rs[0]);
  }

  /** A block that is not given back keeps its place, and its bytes are what was stored there last. */
  lemma {:induction false} HeldThroughout(h: Model, rs: seq<Request>, b: int, i: nat, v: Byte)
    requires WellFormed(h) && !EndsIn(rs, b)
    ensures Traced(h, rs, b, i, v) == Some((b, LastPut(rs, b + 13 + i, v)))
    decreases |rs|
  {
    if rs != [] {
      TracedStays(h, rs, b, i, v);
      NotEnded(rs, b);
      HeldThroughout(Serve(h, rs[0]), rs[1..], b, i, if rs[0].Put? && rs[0].a == b + 13 + i then rs[0].v else v);
    }
  }

  ghost predicate EndsIn(rs: seq<Request>, b: int) { exists r | r in rs :: Ends(r, b) }

  lemma NotEnded(rs: seq<Request>, b: int)
    requires rs != [] && !EndsIn(rs, b)
    ensures !Ends(rs[0], b) && !EndsIn(rs[1..], b)
  {
    assert rs[0] in rs && forall r | r in rs[1..] :: r in rs;
  }
}
