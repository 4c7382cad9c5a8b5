/** alloc.c over the bytes of the process: block headers are read and written in place. */
module UserHeap {
  import opened Words
  import opened Bytes
  import opened HeapModel

  const SBRK_STEP: int := 4096
  const USER_HEAP_SIZE: int := 262144

  predicate InRam(b: int) { 0 <= b && b + HEADER <= RAM_SIZE }

  ghost predicate AllInRam(bs: set<int>)
  {
    forall b {:trigger b in bs} | b in bs :: InRam(b)
  }

  /** `hd` is what memory holds at its addresses, read as headers. */
  ghost predicate Seen(m: Ram, hd: map<int, Header>)
  {
    AllInRam(hd.Keys) && forall b {:trigger HeaderAt(m, b)} | b in hd :: HeaderAt(m, b) == hd[b]
  }

  ghost predicate Separate(bs: set<int>)
  {
    forall b, c {:trigger Apart(b, c)} | b in bs && c in bs && b != c :: Apart(b, c)
  }

  /** Address `i` is not a byte of a header of `bs`. */
  ghost predicate Outside(bs: set<int>, i: int)
  {
    forall b | b in bs :: !(b <= i < b + HEADER)
  }

  ghost predicate SameOutside(m: Ram, m': Ram, bs: set<int>)
  {
    forall i {:trigger Outside(bs, i)} | 0 <= i < RAM_SIZE && Outside(bs, i) :: m'[i] == m[i]
  }

  lemma SameOutsideTwice(m: Ram, m1: Ram, m2: Ram, bs: set<int>, cs: set<int>)
    requires SameOutside(m, m1, bs) && SameOutside(m1, m2, cs) && bs <= cs
    ensures SameOutside(m, m2, cs)
  {
    forall i | 0 <= i < RAM_SIZE && Outside(cs, i)
      ensures m2[i] == m[i]
    {
      assert Outside(bs, i);
    }
  }

  lemma HeaderRewrite(m: Ram, m': Ram, hd: map<int, Header>, b: int, h: Header)
    requires Seen(m, hd) && Separate(hd.Keys) && b in hd && HeaderSet(m, m', b, h)
    ensures Seen(m', hd[b := h]) && SameOutside(m, m', hd.Keys)
  {
    forall c | c in hd && c != b
      ensures HeaderAt(m', c) == HeaderAt(m, c)
    {
      assert Apart(b, c);
    }
    forall i | 0 <= i < RAM_SIZE && Outside(hd.Keys, i)
      ensures m'[i] == m[i]
    {
    }
  }

  /** The link structure, on the headers alone. */

  function WithPrev(hd: map<int, Header>, b: int, p: Word): map<int, Header>
    requires b in hd
  {
    hd[b := hd[b].(prev := p)]
  }

  function WithNext(hd: map<int, Header>, b: int, p: Word): map<int, Header>
    requires b in hd
  {
    hd[b := hd[b].(next := p)]
  }

  function PrevOf(s: seq<int>, k: nat): int
    requires k < |s|
  {
    if k == 0 then 0 else s[k - 1]
  }

  function NextOf(s: seq<int>, k: nat): int
    requires k < |s|
  {
    if k + 1 < |s| then s[k + 1] else 0
  }

  ghost predicate LinkAt(hd: map<int, Header>, s: seq<int>, k: nat)
    requires k < |s| && s[k] in hd
  {
    hd[s[k]].prev == PrevOf(s, k) && hd[s[k]].next == NextOf(s, k)
  }

  ghost predicate In(s: seq<int>, bs: set<int>)
  {
    forall k | 0 <= k < |s| :: s[k] in bs
  }

  function HeadOf(s: seq<int>): int { if s == [] then 0 else s[0] }

  /** The blocks `s` form one doubly linked list in that order. */
  ghost predicate Linked(hd: map<int, Header>, s: seq<int>)
  {
    In(s, hd.Keys) && forall k: nat {:trigger LinkAt(hd, s, k)} | k < |s| :: LinkAt(hd, s, k)
  }

  /** Only links have changed, and only those of the blocks `s` and `b`. */
  ghost predicate Rewired(hd: map<int, Header>, hd': map<int, Header>, s: seq<int>, b: int)
  {
    && hd'.Keys == hd.Keys
    && (forall c | c in hd :: hd'[c].guard == hd[c].guard && hd'[c].size == hd[c].size)
    && (forall c | c in hd && c !in s && c != b :: hd'[c] == hd[c])
  }

  ghost predicate Words32(s: seq<int>)
  {
    forall k | 0 <= k < |s| :: 0 <= s[k] < 0x1_0000_0000
  }

  /** What free_insert makes of the headers when `b` belongs before element `k`. */
  ghost function Spliced(hd: map<int, Header>, s: seq<int>, k: nat, b: Word): map<int, Header>
    requires b in hd && k <= |s| && In(s, hd.Keys) && Words32(s)
  {
    var h1 := WithNext(WithPrev(hd, b, 0), b, 0);
    if k == 0 then
      if s == [] then h1 else WithNext(WithPrev(h1, s[0], b), b, s[0])
    else
      var h2 := if k < |s| then WithPrev(WithNext(h1, b, s[k]), s[k], b) else h1;
      WithNext(WithPrev(h2, b, s[k - 1]), s[k - 1], b)
  }

  lemma SplicedLinks(hd: map<int, Header>, s: seq<int>, k: nat, b: Word, i: nat)
    requires In(s, hd.Keys) && Words32(s) && Spaced(s) && b in hd && b !in s && k <= |s| && i < |s|
    ensures Spliced(hd, s, k, b)[s[i]].prev == if i == k then b else hd[s[i]].prev
    ensures Spliced(hd, s, k, b)[s[i]].next == if i + 1 == k then b else hd[s[i]].next
  {
    assert s[i] != b && (i < k ==> k == |s| || s[i] != s[k]) && (k > 0 && i != k - 1 ==> s[i] != s[k - 1])
      && (k < i ==> s[i] != s[k]);
  }

  lemma SplicedLink(hd: map<int, Header>, s: seq<int>, k: nat, b: Word, i: nat)
    requires Linked(hd, s) && Spaced(s) && Words32(s) && b in hd && b !in s && k <= |s| && i <= |s|
    ensures var t := s[..k] + [b] + s[k..]; t[i] in hd && LinkAt(Spliced(hd, s, k, b), t, i)
  {
    var t := s[..k] + [b] + s[k..];
    assert t[i] == (if i < k then s[i] else if i == k then b else s[i - 1]);
    if i != k {
      var j := if i < k then i else i - 1;
      assert LinkAt(hd, s, j);
      SplicedLinks(hd, s, k, b, j);
    }
  }

  lemma SplicedIsLinked(hd: map<int, Header>, s: seq<int>, k: nat, b: Word)
    requires Linked(hd, s) && Spaced(s) && Words32(s) && b in hd && b !in s && k <= |s|
    ensures Linked(Spliced(hd, s, k, b), s[..k] + [b] + s[k..])
  {
    forall i: nat | i <= |s|
      ensures (s[..k] + [b] + s[k..])[i] in hd && LinkAt(Spliced(hd, s, k, b), s[..k] + [b] + s[k..], i)
    {
      SplicedLink(hd, s, k, b, i);
    }
  }

  lemma SplicedRewires(hd: map<int, Header>, s: seq<int>, k: nat, b: Word)
    requires In(s, hd.Keys) && Words32(s) && b in hd && k <= |s|
    ensures Rewired(hd, Spliced(hd, s, k, b), s, b)
  {
  }

  /** What free_remove makes of the headers when it takes out element `k`. */
  ghost function Unlinked(hd: map<int, Header>, s: seq<int>, k: nat): map<int, Header>
    requires k < |s| && In(s, hd.Keys) && Words32(s)
  {
    if k == 0 then
      if |s| > 1 then WithPrev(hd, s[1], 0) else hd
    else if k + 1 < |s| then
      WithPrev(WithNext(hd, s[k - 1], s[k + 1]), s[k + 1], s[k - 1])
    else
      WithNext(hd, s[k - 1], 0)
  }

  lemma UnlinkedLink(hd: map<int, Header>, s: seq<int>, k: nat, i: nat)
    requires Linked(hd, s) && Spaced(s) && Words32(s) && k < |s| && i < |s| - 1
    ensures Without(s, k)[i] in hd && LinkAt(Unlinked(hd, s, k), Without(s, k), i)
  {
    var t := Without(s, k);
    var j := if i < k then i else i + 1;
    assert t[i] == s[j] && LinkAt(hd, s, j);
    assert i > 0 ==> t[i - 1] == s[if i - 1 < k then i - 1 else i];
    assert i + 1 < |t| ==> t[i + 1] == s[if i + 1 < k then i + 1 else i + 2];
    assert (k > 0 && j != k - 1 ==> s[j] != s[k - 1]) && (k + 1 < |s| && j != k + 1 ==> s[j] != s[k + 1]);
  }

  lemma UnlinkedIsLinked(hd: map<int, Header>, s: seq<int>, k: nat)
    requires Linked(hd, s) && Spaced(s) && Words32(s) && k < |s|
    ensures Linked(Unlinked(hd, s, k), Without(s, k))
  {
    forall i: nat | i < |s| - 1
      ensures Without(s, k)[i] in hd && LinkAt(Unlinked(hd, s, k), Without(s, k), i)
    {
      UnlinkedLink(hd, s, k, i);
    }
  }

  lemma UnlinkedRewires(hd: map<int, Header>, s: seq<int>, k: nat)
    requires In(s, hd.Keys) && Words32(s) && k < |s|
    ensures Rewired(hd, Unlinked(hd, s, k), s, s[k])
  {
  }

  /** The headers describe the blocks of `h`: guards and sizes; the live stamp on every block that is
      neither free nor one of `except`; the free list. */
  ghost predicate Settled(hd: map<int, Header>, h: Model, max: int, except: set<int>)
  {
    match h
    case Model(sizes, free, _) =>
      && hd.Keys == sizes.Keys
      && (forall b | b in hd :: hd[b].guard == GUARD && hd[b].size == sizes[b] && hd[b].size <= max)
      && (forall b {:trigger Live(h, b)} | Live(h, b) && b !in except ::
         hd[b].prev == LIVE_LINK && hd[b].next == LIVE_LINK)
      && Linked(hd, free)
  }

  lemma RemoveSettled(hd: map<int, Header>, h: Model, k: nat, max: int)
    requires WellFormed(h) && Settled(hd, h, max, {}) && Words32(h.free) && k < |h.free|
    ensures Settled(Unlinked(hd, h.free, k), h.(free := Without(h.free, k)), max, {h.free[k]})
  {
    UnlinkedIsLinked(hd, h.free, k);
    UnlinkedRewires(hd, h.free, k);
    WithoutSpaced(h.free, k);
    forall b | Live(h.(free := Without(h.free, k)), b) && b != h.free[k]
      ensures Unlinked(hd, h.free, k)[b].prev == LIVE_LINK && Unlinked(hd, h.free, k)[b].next == LIVE_LINK
    {
      assert Live(h, b);
    }
  }

  lemma SplitSettled(hd: map<int, Header>, h: Model, b: int, size: Word, max: int, rest: Header)
    requires Settled(hd, h, max, {b}) && b in hd && b !in h.free && hd[b].size > size + HEADER
    requires rest.guard == GUARD && rest.size == hd[b].size - size - HEADER && b + HEADER + size !in hd
    ensures Settled(hd[b + HEADER + size := rest][b := hd[b].(size := size)],
      h.(sizes := HeapModel.Split(h.sizes, b, size)), max, {b, b + HEADER + size})
  {
    var r := b + HEADER + size;
    var hd' := hd[r := rest][b := hd[b].(size := size)];
    var h' := h.(sizes := HeapModel.Split(h.sizes, b, size));
    forall c | Live(h', c) && c !in {b, r}
      ensures hd'[c].prev == LIVE_LINK && hd'[c].next == LIVE_LINK
    {
      assert Live(h, c);
    }
    forall k: nat | k < |h.free|
      ensures h.free[k] in hd' && LinkAt(hd', h.free, k)
    {
      assert LinkAt(hd, h.free, k) && h.free[k] in hd && h.free[k] != b;
    }
  }

  lemma InsertSettled(hd: map<int, Header>, hd': map<int, Header>, h: Model, b: int, max: int, except: set<int>)
    requires Settled(hd, h, max, except + {b}) && b in hd
    requires Rewired(hd, hd', h.free, b) && Linked(hd', Insert(h.free, b))
    ensures Settled(hd', h.(free := Insert(h.free, b)), max, except)
  {
    forall c
      ensures c in Insert(h.free, b) <==> c == b || c in h.free
    {
      InsertMember(h.free, b, c);
    }
    forall c | Live(h.(free := Insert(h.free, b)), c) && c !in except
      ensures hd'[c].prev == LIVE_LINK && hd'[c].next == LIVE_LINK
    {
      assert Live(h, c);
    }
  }

  lemma StampSettled(hd: map<int, Header>, h: Model, b: int, max: int)
    requires Settled(hd, h, max, {b}) && b in hd && b !in h.free
    ensures Settled(WithPrev(WithNext(hd, b, LIVE_LINK), b, LIVE_LINK), h, max, {})
  {
    var hd' := WithPrev(WithNext(hd, b, LIVE_LINK), b, LIVE_LINK);
    forall k: nat | k < |h.free|
      ensures h.free[k] in hd' && LinkAt(hd', h.free, k)
    {
      assert LinkAt(hd, h.free, k) && h.free[k] != b;
    }
  }

  lemma GrowSettled(hd: map<int, Header>, h: Model, size: Word, max: int)
    requires WellFormed(h) && Settled(hd, h, max, {}) && size <= max && h.top !in h.sizes
    ensures Settled(hd[h.top := Header(GUARD, size, LIVE_LINK, LIVE_LINK)],
      h.(sizes := h.sizes[h.top := size], top := h.top + HEADER + size), max, {})
  {
    var hd' := hd[h.top := Header(GUARD, size, LIVE_LINK, LIVE_LINK)];
    var h' := h.(sizes := h.sizes[h.top := size], top := h.top + HEADER + size);
    forall c | Live(h', c)
      ensures hd'[c].prev == LIVE_LINK && hd'[c].next == LIVE_LINK
    {
      assert c != h.top ==> Live(h, c);
    }
    forall k: nat | k < |h.free|
      ensures h.free[k] in hd' && LinkAt(hd', h.free, k)
    {
      assert LinkAt(hd, h.free, k) && h.free[k] in h.sizes;
    }
  }

  /** No live block of `h` has moved or changed its size. */
  ghost predicate StillThere(h: Model, h': Model)
  {
    forall b {:trigger Live(h, b)} | Live(h, b) :: b in h'.sizes && h'.sizes[b] == h.sizes[b]
  }

  /** No byte a caller owns belongs to a header, now or after blocks have been added. */
  lemma OwnedOutside(h: Model, h': Model, a: int)
    requires WellFormed(h') && Owned(h, a)
    requires StillThere(h, h')
    ensures Outside(h'.sizes.Keys, a)
  {
    var b :| Live(h, b) && b + HEADER <= a < End(h.sizes, b);
    forall c | c in h'.sizes
      ensures !(c <= a < c + HEADER)
    {
      assert Ordered(h'.sizes, c, b) && Ordered(h'.sizes, b, c);
    }
  }

  /** What a caller owns in `h` has not changed. */
  ghost predicate PayloadKept(h: Model, m: Ram, m': Ram)
  {
    forall a | 0 <= a < RAM_SIZE && Owned(h, a) :: m'[a] == m[a]
  }

  lemma OutsideKeepsPayload(h: Model, h': Model, m: Ram, m': Ram)
    requires WellFormed(h') && SameOutside(m, m', h'.sizes.Keys)
    requires StillThere(h, h')
    ensures PayloadKept(h, m, m')
  {
    forall a | 0 <= a < RAM_SIZE && Owned(h, a)
      ensures m'[a] == m[a]
    {
      OwnedOutside(h, h', a);
    }
  }

  lemma TiledSeparate(sizes: map<int, int>, top: int)
    requires Tiled(sizes, top)
    ensures Separate(sizes.Keys)
  {
    forall b, c | b in sizes.Keys && c in sizes.Keys && b != c
      ensures Apart(b, c)
    {
      assert Ordered(sizes, b, c) && Ordered(sizes, c, b);
    }
  }

  /** The validate macro. */
  predicate Validate(heapSize: int, p: int) { USER_HEAP <= p <= USER_HEAP + heapSize }

  /** The blocks have valid addresses and do not overlap, and `hd` is what memory holds there. */
  ghost predicate Placed(m: Ram, hd: map<int, Header>, heapSize: int)
  {
    && 0 <= heapSize && USER_HEAP + heapSize + HEADER <= RAM_SIZE
    && Separate(hd.Keys) && Seen(m, hd)
    && forall b {:trigger Validate(heapSize, b)} | b in hd :: Validate(heapSize, b)
  }

  /** ... and `s` is the free list, in order. */
  ghost predicate Listed(m: Ram, hd: map<int, Header>, heapSize: int, head: int, s: seq<int>)
  {
    Placed(m, hd, heapSize) && Spaced(s) && Linked(hd, s) && head == HeadOf(s)
  }

  /** If a request needs a new block, its addresses do not wrap. */
  ghost predicate Fits32(h: Model, size: int)
    requires WellFormed(h)
  {
    size > 0 && FirstFit(h, size, 0) == |h.free| ==> h.top + HEADER + size + SBRK_STEP + HEADER <= RAM_SIZE
  }

  /** ... at every step of a run, given what earlier steps have freed. */
  ghost predicate AllFit32(h: Model, rs: seq<Request>)
    requires WellFormed(h)
    decreases |rs|
  {
    rs == [] ||
    (ServeKeeps(h, rs[0]);
     Fits32(h, Asked(rs[0])) && AllFit32(Serve(h, rs[0]), rs[1..]))
  }

  /** The heap's invariant; the blocks `except` need not bear the live stamp. */
  ghost predicate Sound(m: Ram, hd: map<int, Header>, h: Model, start: int, heapSize: int, max: int, head: int,
          except: set<int>)
  {
    match h
    case Model(_, free, top) =>
      && WellFormed(h) && Placed(m, hd, heapSize)
      && top == start && start <= USER_HEAP + heapSize && 0 <= max
      && Settled(hd, h, max, except) && head == HeadOf(free)
  }

  /** Where a block may be cut. */
  ghost predicate FreshPlace(hd: map<int, Header>, heapSize: int, r: int)
  {
    r !in hd && Validate(heapSize, r) && InRam(r) && Separate(hd.Keys + {r})
  }

  lemma RestFresh(h: Model, hd: map<int, Header>, heapSize: int, b: int, size: int)
    requires WellFormed(h) && hd.Keys == h.sizes.Keys && h.top <= USER_HEAP + heapSize <= RAM_SIZE - HEADER
    requires b in h.sizes && 0 < size && h.sizes[b] > size + HEADER
    ensures FreshPlace(hd, heapSize, b + HEADER + size)
  {
    SplitTiled(h.sizes, h.top, b, size);
    TiledSeparate(HeapModel.Split(h.sizes, b, size), h.top);
    assert HeapModel.Split(h.sizes, b, size).Keys == hd.Keys + {b + HEADER + size};
  }

  lemma SoundLarger(m: Ram, hd: map<int, Header>, h: Model, start: int, heapSize: int, heapSize': int, max: int,
          max': int, head: int)
    requires Sound(m, hd, h, start, heapSize, max, head, {})
    requires heapSize <= heapSize' && USER_HEAP + heapSize' + HEADER <= RAM_SIZE && max <= max'
    ensures Sound(m, hd, h, start, heapSize', max', head, {})
  {
    forall b | b in hd
      ensures Validate(heapSize', b)
    {
      assert Validate(heapSize, b);
    }
  }

  lemma TopFresh(h: Model, hd: map<int, Header>, heapSize: int, size: int)
    requires WellFormed(h) && hd.Keys == h.sizes.Keys && size > 0
    requires h.top + HEADER + size < USER_HEAP + heapSize <= RAM_SIZE - HEADER
    ensures FreshPlace(hd, heapSize, h.top)
  {
    GrowTiled(h.sizes, h.top, size);
    TiledSeparate(h.sizes[h.top := size], h.top + HEADER + size);
    assert h.sizes[h.top := size].Keys == hd.Keys + {h.top};
  }

  lemma FreeSettled(hd: map<int, Header>, h: Model, b: int, max: int)
    requires Settled(hd, h, max, {}) && Live(h, b)
    ensures Settled(hd, h, max, {} + {b}) && b in hd && b !in h.free
  {
  }

  /** A block bears the live stamp exactly when it is live. */
  lemma StampTells(m: Ram, hd: map<int, Header>, h: Model, start: int, heapSize: int, max: int, head: int, b: int)
    requires Sound(m, hd, h, start, heapSize, max, head, {}) && b in h.sizes
    ensures b in hd && hd[b].guard == 0xED && hd[b].size == h.sizes[b] <= max && b >= 0xD000_0000
    ensures Live(h, b) <==> hd[b].prev == 0xAABB_CCDD && hd[b].next == 0xAABB_CCDD
  {
    if b in h.free {
      var k: nat :| k < |h.free| && h.free[k] == b;
      assert LinkAt(hd, h.free, k);
    }
  }

  /** A store inside a live payload changes no header. */
  lemma PayloadStore(m: Ram, m': Ram, hd: map<int, Header>, h: Model, b: int, lo: int, hi: int)
    requires WellFormed(h) && hd.Keys == h.sizes.Keys && Seen(m, hd)
    requires b in h.sizes && b + HEADER <= lo && hi <= End(h.sizes, b)
    requires forall i | 0 <= i < RAM_SIZE && !(lo <= i < hi) :: m'[i] == m[i]
    ensures Seen(m', hd)
  {
    forall c | c in hd
      ensures HeaderAt(m', c) == HeaderAt(m, c)
    {
      assert Ordered(h.sizes, c, b) && Ordered(h.sizes, b, c);
      forall i | c <= i < c + HEADER
        ensures m'[i] == m[i]
      {
      }
      LoadSame(m', m, c + 1, 4);
      LoadSame(m', m, c + 5, 4);
      LoadSame(m', m, c + 9, 4);
    }
  }

  /** Bytes [lo, hi) of `m'` hold what `m` has `src - dst` further on; the rest is as in `m`. */
  ghost predicate Moved(m: Ram, m': Ram, dst: int, src: int, lo: int, hi: int)
    requires 0 <= src - dst + lo && src - dst + hi <= RAM_SIZE
  {
    forall i {:trigger m'[i]} | 0 <= i < RAM_SIZE :: m'[i] == if lo <= i < hi then m[src - dst + i] else m[i]
  }

  /** The payload of live block `c` lies apart from that of live block `b`. */
  lemma PayloadsApart(h: Model, b: int, c: int, a: int)
    requires WellFormed(h) && b in h.sizes && c in h.sizes && b != c && c + HEADER <= a < End(h.sizes, c)
    ensures !(b <= a < End(h.sizes, b))
  {
    if b <= a < End(h.sizes, b) {
      BlocksDisjoint(h, b, c, a);
    }
  }

  /** Stores into a block handed out just now change nothing that was owned before. */
  lemma StoresKeepPayload(h: Model, h': Model, m: Ram, m1: Ram, m2: Ram, c: int, n: int)
    requires WellFormed(h') && c in h'.sizes && !Live(h, c) && n <= h'.sizes[c]
    requires StillThere(h, h')
    requires PayloadKept(h, m, m1)
    requires forall i | 0 <= i < RAM_SIZE && !(c + HEADER <= i < c + HEADER + n) :: m2[i] == m1[i]
    ensures PayloadKept(h, m, m2)
  {
    forall a | 0 <= a < RAM_SIZE && Owned(h, a)
      ensures m2[a] == m[a]
    {
      var b :| Live(h, b) && b + HEADER <= a < End(h.sizes, b);
      PayloadsApart(h', c, b, a);
    }
  }

  /** `n` bytes at `to` hold what `m` has at `from`. */
  ghost predicate Copied(m: Ram, m': Ram, from: int, to: int, n: int)
    requires 0 <= from && from + n <= RAM_SIZE
  {
    forall a | 0 <= a < RAM_SIZE && to <= a < to + n :: m'[a] == m[from + (a - to)]
  }

  lemma CopiedBytes(h: Model, h1: Model, m: Ram, m1: Ram, m2: Ram, b: int, r: int, n: nat)
    requires WellFormed(h1) && Live(h, b) && n <= h.sizes[b] && 0 <= b && b + HEADER + n <= RAM_SIZE
    requires PayloadKept(h, m, m1) && Moved(m1, m2, r, b + HEADER, r, r + n)
    ensures Copied(m, m2, b + HEADER, r, n)
  {
    forall a | 0 <= a < RAM_SIZE && r <= a < r + n
      ensures m2[a] == m[b + HEADER + (a - r)]
    {
      assert Owned(h, b + HEADER + (a - r));
    }
  }

  lemma CopyStays(h1: Model, m: Ram, m2: Ram, m3: Ram, from: int, r: int, n: nat)
    requires Live(h1, r - HEADER) && n <= h1.sizes[r - HEADER] && 0 <= from && from + n <= RAM_SIZE
    requires Copied(m, m2, from, r, n) && PayloadKept(h1, m2, m3)
    ensures Copied(m, m3, from, r, n)
  {
    forall a | 0 <= a < RAM_SIZE && r <= a < r + n
      ensures m3[a] == m[from + (a - r)]
    {
      assert Owned(h1, a);
    }
  }

  /** How many bytes realloc carries over. */
  function Kept(h: Model, b: int, size: int): int
    requires b in h.sizes
  {
    if h.sizes[b] >= size then size else h.sizes[b]
  }

  lemma ReleaseKeepsPayload(h: Model, h1: Model, b: int, m: Ram, m1: Ram, m2: Ram)
    requires WellFormed(h1) && Live(h1, b) && SameOutside(m1, m2, h1.sizes.Keys)
    requires StillThere(h, h1) && forall c | Live(h, c) :: Live(h1, c)
    requires PayloadKept(h, m, m1)
    ensures PayloadKept(h1, m1, m2) && PayloadKept(h, m, m2)
  {
    FreeKeeps(h1, b);
    OutsideKeepsPayload(h1, HeapModel.Free(h1, b), m1, m2);
    forall a | 0 <= a < RAM_SIZE && Owned(h, a)
      ensures m2[a] == m[a]
    {
      var c :| Live(h, c) && c + HEADER <= a < End(h.sizes, c);
      assert Live(h1, c) && Owned(h1, a);
    }
  }

  /** Byte `i` of block `b`, which held `v`, is where `Traced` says, with that value. */
  ghost predicate Follows(h: Model, rs: seq<Request>, b: int, i: nat, v: Byte, h': Model, m': Ram)
    requires WellFormed(h)
  {
    match Traced(h, rs, b, i, v)
    case None => true
    case Some(t) =>
      Live(h', t.0) && i < h'.sizes[t.0] && 0 <= t.0 + HEADER + i < RAM_SIZE && m'[t.0 + HEADER + i] == t.1
  }

  /** Byte `i` of live block `b`. */
  ghost predicate Holds(h: Model, b: int, i: nat)
  {
    Live(h, b) && i < h.sizes[b] && 0 <= b + HEADER + i < RAM_SIZE
  }

  /** So it is for every byte of every live block. */
  ghost predicate AllFollow(h: Model, rs: seq<Request>, m: Ram, h': Model, m': Ram)
    requires WellFormed(h)
  {
    forall b, i: nat {:trigger Holds(h, b, i)} | Holds(h, b, i) :: Follows(h, rs, b, i, m[b + HEADER + i], h', m')
  }

  /** The bytes that realloc has carried over. */
  ghost predicate CarriedOver(h: Model, r: Request, m: Ram, m1: Ram)
    requires WellFormed(h) && h.top <= RAM_SIZE && r.Resize? && Live(h, r.held - HEADER)
  {
    var to := Chosen(h, r.size) + HEADER;
    forall a | 0 <= a < RAM_SIZE && to <= a < to + r.size && a < to + h.sizes[r.held - HEADER] ::
      m1[a] == m[r.held + (a - to)]
  }

  /** What a step other than giving back the block leaves of byte `i`. */
  lemma StepKeepsByte(h: Model, r: Request, b: int, i: nat, m: Ram, m1: Ram)
    requires WellFormed(h) && Holds(h, b, i) && !Ends(r, b)
    requires forall a | 0 <= a < RAM_SIZE && Owned(h, a) :: m1[a] == if r.Put? && r.a == a then r.v else m[a]
    ensures WellFormed(Serve(h, r)) && Holds(Serve(h, r), b, i)
    ensures m1[b + HEADER + i] == if r.Put? && r.a == b + HEADER + i then r.v else m[b + HEADER + i]
  {
    ServeKeeps(h, r);
    assert Owned(h, b + HEADER + i);
  }

  lemma CarriedByte(h: Model, r: Request, i: nat, m: Ram, m1: Ram)
    requires WellFormed(h) && h.top <= RAM_SIZE && r.Resize? && Holds(h, r.held - HEADER, i) && i < r.size
    requires CarriedOver(h, r, m, m1) && 0 <= Chosen(h, r.size) + HEADER + i < RAM_SIZE
    ensures m1[Chosen(h, r.size) + HEADER + i] == m[r.held + i]
  {
    var to := Chosen(h, r.size) + HEADER;
    assert (to + i) - to == i;
    assert m1[to + i] == m[r.held + ((to + i) - to)];
  }

  /** What a resize of the block makes of it. */
  lemma ResizeMoves(h: Model, r: Request)
    requires WellFormed(h) && r.Resize? && r.size > 0 && Live(h, r.held - HEADER)
    ensures WellFormed(Serve(h, r)) && Live(Serve(h, r), Chosen(h, r.size))
    ensures Serve(h, r).sizes[Chosen(h, r.size)] == r.size
  {
    MallocKeeps(h, r.size);
    FreeIfKeeps(AllocIf(h, r.size), r.held);
  }

  /** The first step of a run, and then the rest. */
  lemma FollowsStep(h: Model, h1: Model, rs: seq<Request>, b: int, i: nat, m: Ram, m1: Ram, h': Model, m': Ram)
    requires WellFormed(h) && rs != [] && h1 == Serve(h, rs[0]) && WellFormed(h1) && Holds(h, b, i)
    requires h.top <= RAM_SIZE && h1.top <= RAM_SIZE
    requires AllFollow(h1, rs[1..], m1, h', m')
    requires forall a | 0 <= a < RAM_SIZE && Owned(h, a) :: m1[a] == if rs[0].Put? && rs[0].a == a then rs[0].v
      else m[a]
    requires rs[0].Resize? ==> Live(h, rs[0].held - HEADER) && CarriedOver(h, rs[0], m, m1)
    ensures Follows(h, rs, b, i, m[b + HEADER + i], h', m')
  {
    if !Ends(rs[0], b) {
      StepKeepsByte(h, rs[0], b, i, m, m1);
      TracedStays(h, rs, b, i, m[b + HEADER + i]);
      assert Follows(h1, rs[1..], b, i, m1[b + HEADER + i], h', m');
    } else if rs[0].Resize? {
      TracedMoves(h, rs, i, m[b + HEADER + i]);
      if i < rs[0].size {
        ResizeMoves(h, rs[0]);
        var c := Chosen(h, rs[0].size);
        assert Holds(h1, c, i);
        CarriedByte(h, rs[0], i, m, m1);
        assert Follows(h1, rs[1..], c, i, m1[c + HEADER + i], h', m');
      }
    }
  }

  /** What mem_check asks of one block. */
  predicate Passes(b: int, h: Header, heapSize: int, max: int)
  {
    && h.guard == GUARD && h.size <= max
    && (h.next == 0 || h.next == LIVE_LINK || Validate(heapSize, h.next))
    && (h.prev == 0 || h.prev == LIVE_LINK || Validate(heapSize, h.prev))
    && (h.next != LIVE_LINK && h.prev != LIVE_LINK ==> (h.next == 0 || b <= h.next) && h.prev <= b)
  }

  /** The heap's own checker finds nothing in any state its operations reach. */
  lemma SoundPasses(m: Ram, hd: map<int, Header>, h: Model, start: int, heapSize: int, max: int, head: int, b: int)
    requires Sound(m, hd, h, start, heapSize, max, head, {}) && b in hd
    ensures Passes(b, hd[b], heapSize, max)
  {
    if b in h.free {
      var k: nat :| k < |h.free| && h.free[k] == b;
      assert LinkAt(hd, h.free, k);
      if k > 0 {
        assert h.free[k - 1] + HEADER <= b && Validate(heapSize, h.free[k - 1]);
      }
      if k + 1 < |h.free| {
        assert b + HEADER <= h.free[k + 1] && Validate(heapSize, h.free[k + 1]);
      }
    } else {
      assert Live(h, b);
    }
  }

  /** A request that a free block serves is no larger than what the heap already spans. */
  lemma FitsBelowTop(h: Model, size: int)
    requires WellFormed(h) && size >= 1 && FirstFit(h, size, 0) < |h.free|
    ensures USER_HEAP + HEADER + size <= h.top
  {
    var b := h.free[FirstFit(h, size, 0)];
    assert b in h.sizes && h.sizes[b] >= size;
  }

  class Heap {
    var mem: Ram
    var heapStart: int      // heap_start, static
    var heapSize: int       // heap_size
    var maxAllocation: int  // max_allocation
    var freeList: int       // free_list, 0 when empty

    ghost var headers: map<int, Header> // what `mem` holds at the blocks
    ghost var model: Model

    method WritePrev(b: int, p: Word)
      requires Placed(mem, headers, heapSize) && b in headers
      modifies this`mem, this`headers
      ensures Placed(mem, headers, heapSize) && headers == WithPrev(old(headers), b, p)
      ensures headers.Keys == old(headers.Keys)
      ensures SameOutside(old(mem), mem, headers.Keys)
    {
      SetPrev(mem, b, p);
      HeaderRewrite(mem, Store(mem, b + 5, 4, p), headers, b, HeaderAt(mem, b).(prev := p));
      mem, headers := Store(mem, b + 5, 4, p), WithPrev(headers, b, p);
      assert headers.Keys == old(headers.Keys);
    }

    method WriteNext(b: int, p: Word)
      requires Placed(mem, headers, heapSize) && b in headers
      modifies this`mem, this`headers
      ensures Placed(mem, headers, heapSize) && headers == WithNext(old(headers), b, p)
      ensures headers.Keys == old(headers.Keys)
      ensures SameOutside(old(mem), mem, headers.Keys)
    {
      SetNext(mem, b, p);
      HeaderRewrite(mem, Store(mem, b + 9, 4, p), headers, b, HeaderAt(mem, b).(next := p));
      mem, headers := Store(mem, b + 9, 4, p), WithNext(headers, b, p);
      assert headers.Keys == old(headers.Keys);
    }

    method WriteSize(b: int, w: Word)
      requires Placed(mem, headers, heapSize) && b in headers
      modifies this`mem, this`headers
      ensures Placed(mem, headers, heapSize) && headers == old(headers[b := headers[b].(size := w)])
      ensures headers.Keys == old(headers.Keys)
      ensures SameOutside(old(mem), mem, headers.Keys)
    {
      SetSize(mem, b, w);
      HeaderRewrite(mem, Store(mem, b + 1, 4, w), headers, b, HeaderAt(mem, b).(size := w));
      mem, headers := Store(mem, b + 1, 4, w), headers[b := headers[b].(size := w)];
      assert headers.Keys == old(headers.Keys);
    }

    method WriteGuard(b: int)
      requires Placed(mem, headers, heapSize) && b in headers
      modifies this`mem, this`headers
      ensures Placed(mem, headers, heapSize) && headers == old(headers[b := headers[b].(guard := GUARD)])
      ensures headers.Keys == old(headers.Keys)
      ensures SameOutside(old(mem), mem, headers.Keys)
    {
      SetGuard(mem, b, GUARD);
      HeaderRewrite(mem, mem[b := GUARD], headers, b, HeaderAt(mem, b).(guard := GUARD));
      mem, headers := mem[b := GUARD], headers[b := headers[b].(guard := GUARD)];
      assert headers.Keys == old(headers.Keys);
    }

    /** Take `b` into the view: whatever memory holds there, read as a header. */
    ghost method Notice(b: int)
      requires Placed(mem, headers, heapSize) && FreshPlace(headers, heapSize, b)
      modifies this`headers
      ensures Placed(mem, headers, heapSize) && headers == old(headers)[b := HeaderAt(mem, b)]
      ensures headers.Keys == old(headers.Keys) + {b}
    {
      headers := headers[b := HeaderAt(mem, b)];
      assert headers.Keys == old(headers.Keys) + {b};
    }

    method ReadHeader(b: int) returns (h: Header)
      requires Placed(mem, headers, heapSize) && b in headers
      ensures h == headers[b]
    {
      h := HeaderAt(mem, b);
    }

    method InsertFirst(b: int, ghost s: seq<int>)
      requires Listed(mem, headers, heapSize, freeList, s) && b in headers && b !in s && (s == [] || b < s[0])
      modifies this`mem, this`headers, this`freeList
      ensures Placed(mem, headers, heapSize) && Words32(s) && headers == Spliced(old(headers), s, 0, b)
      ensures freeList == b && SameOutside(old(mem), mem, headers.Keys)
    {
      WritePrev(b, 0);
      WriteNext(b, 0);
      if Validate(heapSize, freeList) {
        WritePrev(freeList, b);
        WriteNext(b, freeList);
      }
      freeList := b;
    }

    /** The walk to the last element of the list before address `b`. */
    method Predecessor(b: int, ghost s: seq<int>,
            ghost hd: map<int, Header>) returns (curr: int, next: int, ghost i: nat)
      requires Placed(mem, headers, heapSize) && Spaced(s) && Linked(hd, s) && freeList == HeadOf(s) && s != []
      requires s[0] < b
      requires forall k | 0 <= k < |s| :: s[k] in headers && headers[s[k]] == hd[s[k]]
      ensures i < |s| && curr == s[i] && curr < b && (i + 1 < |s| ==> b <= s[i + 1])
      ensures next == NextOf(s, i)
    {
      curr, i := freeList, 0;
      var h := ReadHeader(curr);
      assert LinkAt(hd, s, 0);
      while Validate(heapSize, h.next) && h.next < b
        invariant i < |s| && curr == s[i] && s[i] < b && h.next == NextOf(s, i)
        decreases |s| - i
      {
        curr, i := h.next, i + 1;
        h := ReadHeader(curr);
        assert LinkAt(hd, s, i);
      }
      next := h.next;
    }

    method InsertLater(b: int, ghost s: seq<int>, ghost k: nat)
      requires Listed(mem, headers, heapSize, freeList, s) && b in headers && b !in s && 0 < k <= |s| && s[k - 1] < b
      requires (k < |s| ==> b < s[k])
      modifies this`mem, this`headers
      ensures Placed(mem, headers, heapSize) && Words32(s) && headers == Spliced(old(headers), s, k, b)
      ensures SameOutside(old(mem), mem, headers.Keys)
    {
      ghost var hd := headers;
      WritePrev(b, 0);
      WriteNext(b, 0);
      var curr, next, i := Predecessor(b, s, hd);
      assert i == k - 1;
      if Validate(heapSize, next) {
        WriteNext(b, next);
        WritePrev(next, b);
      }
      WritePrev(b, curr);
      WriteNext(curr, b);
    }

    method FreeInsert(b: int, ghost s: seq<int>)
      requires Listed(mem, headers, heapSize, freeList, s) && b in headers && b !in s
      modifies this`mem, this`headers, this`freeList
      ensures Listed(mem, headers, heapSize, freeList, Insert(s, b))
      ensures Rewired(old(headers), headers, s, b) && SameOutside(old(mem), mem, headers.Keys)
    {
      ghost var hd := headers;
      ghost var k := FindPlace(s, b);
      SplicedIsLinked(hd, s, k, b);
      SplicedRewires(hd, s, k, b);
      InsertSpaced(s, b);
      if !Validate(heapSize, freeList) || freeList > b {
        InsertFirst(b, s);
      } else if Validate(heapSize, freeList) {
        InsertLater(b, s, k);
      }
    }

    method FreeRemove(b: int, ghost s: seq<int>, ghost k: nat)
      requires Listed(mem, headers, heapSize, freeList, s) && k < |s| && b == s[k]
      modifies this`mem, this`headers, this`freeList
      ensures Placed(mem, headers, heapSize) && Words32(s) && headers == Unlinked(old(headers), s, k)
      ensures freeList == HeadOf(Without(s, k))
      ensures SameOutside(old(mem), mem, headers.Keys)
    {
      var h := ReadHeader(b);
      assert LinkAt(headers, s, k);
      if !Validate(heapSize, h.prev) {
        if Validate(heapSize, h.next) {
          freeList := h.next;
          WritePrev(freeList, 0);
        } else {
          freeList := 0;
        }
      } else if Validate(heapSize, h.next) {
        WriteNext(h.prev, h.next);
        WritePrev(h.next, h.prev);
      } else {
        WriteNext(h.prev, 0);
      }
    }

    /** Cut `size` bytes off the front of a block's payload; 0 if nothing would be left behind them. */
    method Split(orig: int, size: Word) returns (newb: int)
      requires Placed(mem, headers, heapSize) && orig in headers
      requires size > 0 && headers[orig].size > size + HEADER ==> FreshPlace(headers, heapSize, orig + HEADER + size)
      modifies this`mem, this`headers
      ensures Placed(mem, headers, heapSize) && SameOutside(old(mem), mem, headers.Keys)
      ensures size == 0 || old(headers)[orig].size <= size + HEADER ==>
        newb == 0 && headers == old(headers) && mem == old(mem)
      ensures size > 0 && old(headers)[orig].size > size + HEADER ==>
        newb == orig + HEADER + size && newb in headers &&
        headers == old(headers)[newb := headers[newb]][orig := old(headers)[orig].(size := size)] &&
        headers[newb].guard == GUARD && headers[newb].size == old(headers)[orig].size - size - HEADER
    {
      var h := ReadHeader(orig);
      if h.size <= size + HEADER {
        return 0;
      }
      if size == 0 {
        return 0;
      }
      newb := orig + HEADER + size;
      Notice(newb);
      WriteSize(newb, h.size - size - HEADER);
      WriteGuard(newb);
      WriteSize(orig, size);
    }

    ghost predicate Valid()
      reads this
    {
      Sound(mem, headers, model, heapStart, heapSize, maxAllocation, freeList, {})
    }

    /** The rest of a block just taken off the free list goes back on it. */
    method PutBackRest(b: int, size: Word, ghost h: Model)
      requires Placed(mem, headers, heapSize) && FreshPlace(headers, heapSize, b + HEADER + size)
      requires freeList == HeadOf(h.free)
      requires b in h.sizes && b !in h.free && 0 < size && h.sizes[b] > size + HEADER && Spaced(h.free)
      requires Settled(headers, h, maxAllocation, {b})
      modifies this`mem, this`headers, this`freeList
      ensures Placed(mem, headers, heapSize) && Settled(headers, PutBack(h, b, size), maxAllocation, {b})
      ensures freeList == HeadOf(PutBack(h, b, size).free)
      ensures SameOutside(old(mem), mem, headers.Keys) && old(headers.Keys) <= headers.Keys
    {
      ghost var hd, rest := headers, b + HEADER + size;
      ghost var h1 := h.(sizes := HeapModel.Split(h.sizes, b, size));
      var newb := Split(b, size);
      SplitSettled(hd, h, b, size, maxAllocation, headers[rest]);
      assert newb == rest && Validate(heapSize, newb) && rest !in h.free;
      ghost var m1, hd1 := mem, headers;
      if Validate(heapSize, newb) {
        FreeInsert(newb, h.free);
        InsertSettled(hd1, headers, h1, newb, maxAllocation, {b});
      }
      SameOutsideTwice(old(mem), m1, mem, headers.Keys, headers.Keys);
    }

    /** Free block number `k` is taken off the list for a request of `size` bytes. */
    method TakeBlock(b: int, size: Word, ghost k: nat)
      requires Valid() && 0 < size && k < |model.free| && b == model.free[k] && Fits(model.sizes[b], size)
      modifies this`mem, this`headers, this`freeList, this`model
      ensures Sound(mem, headers, model, heapStart, heapSize, maxAllocation, freeList, {b})
      ensures model == Take(old(model), k, size) && SameOutside(old(mem), mem, headers.Keys)
      ensures Live(model, b) && model.sizes[b] == size && b in headers && b != 0
    {
      ghost var h := model;
      ghost var h1 := h.(free := Without(h.free, k));
      TakeKeeps(h, k, size);
      RemoveSettled(headers, h, k, maxAllocation);
      WithoutSpaced(h.free, k);
      var header := ReadHeader(b);
      FreeRemove(b, h.free, k);
      ghost var m1, bs := mem, headers.Keys;
      if header.size != size {
        RestFresh(h1, headers, heapSize, b, size);
        PutBackRest(b, size, h1);
      }
      SameOutsideTwice(old(mem), m1, mem, bs, headers.Keys);
      model := Take(h, k, size);
    }

    /** The walk of free_block. */
    method FirstFitting(size: Word) returns (freeb: int)
      requires Valid()
      ensures var k := FirstFit(model, size, 0); freeb == if k < |model.free| then model.free[k] else 0
      ensures Validate(heapSize, freeb) <==> FirstFit(model, size, 0) < |model.free|
    {
      freeb := freeList;
      ghost var k: nat := 0;
      while Validate(heapSize, freeb)
        invariant k <= |model.free| && freeb == if k < |model.free| then model.free[k] else 0
        invariant FirstFit(model, size, k) == FirstFit(model, size, 0)
        decreases |model.free| - k
      {
        var header := ReadHeader(freeb);
        assert LinkAt(headers, model.free, k);
        if header.size == size || header.size > size + HEADER {
          return;
        }
        freeb, k := header.next, k + 1;
      }
      assert k < |model.free| ==> Validate(heapSize, model.free[k]);
    }

    /** The first free block that serves `size` bytes, taken off the list; 0 if there is none. */
    method FreeBlock(size: Word) returns (r: int)
      requires Valid()
      modifies this`mem, this`headers, this`freeList, this`model
      ensures SameOutside(old(mem), mem, headers.Keys)
      ensures var k := FirstFit(old(model), size, 0);
              if size > 0 && k < |old(model).free| then
                && r == old(model).free[k] && model == Take(old(model), k, size)
                && Sound(mem, headers, model, heapStart, heapSize, maxAllocation, freeList, {r})
                && r != 0 && r in headers && Live(model, r) && model.sizes[r] == size
              else r == 0 && Valid() && model == old(model) && headers == old(headers) && mem == old(mem)
    {
      if size == 0 {
        return 0;
      }
      ghost var k := FirstFit(model, size, 0);
      var freeb := FirstFitting(size);
      if !Validate(heapSize, freeb) {
        return 0;
      }
      TakeBlock(freeb, size, k);
      r := freeb;
    }

    /** The same for the heap as it is. */
    ghost predicate Room(size: Word)
      requires Valid()
      reads this
    {
      Fits32(model, size)
    }

    /** The loops that ask for more memory until `enough` bytes fit. */
    method Sbrk(enough: int)
      requires Valid() && (enough >= heapSize ==> USER_HEAP + enough + SBRK_STEP + HEADER <= RAM_SIZE)
      modifies this`heapSize
      ensures Valid() && heapSize > enough && (heapSize - old(heapSize)) % 4096 == 0
      ensures if enough < old(heapSize) then heapSize == old(heapSize) else heapSize - 4096 <= enough
    {
      while enough >= heapSize
        invariant (heapSize - old(heapSize)) % 4096 == 0
        invariant heapSize == old(heapSize) || (enough >= old(heapSize) && heapSize - 4096 <= enough)
        invariant Valid() && (enough >= heapSize ==> USER_HEAP + enough + SBRK_STEP + HEADER <= RAM_SIZE)
        decreases enough - heapSize
      {
        SoundLarger(mem, headers, model, heapStart, heapSize, heapSize + SBRK_STEP, maxAllocation, maxAllocation,
          freeList);
        heapSize := heapSize + SBRK_STEP;
      }
    }

    /** The header of a live block, at an address that had none. */
    method WriteNew(b: int, size: Word)
      requires Placed(mem, headers, heapSize) && FreshPlace(headers, heapSize, b)
      modifies this`mem, this`headers
      ensures Placed(mem, headers, heapSize) && headers == old(headers)[b := Header(GUARD, size, LIVE_LINK, LIVE_LINK)]
      ensures SameOutside(old(mem), mem, headers.Keys)
    {
      Notice(b);
      WriteSize(b, size);
      WriteGuard(b);
      WritePrev(b, LIVE_LINK);
      WriteNext(b, LIVE_LINK);
    }

    /** A new block at `heap_start`. */
    method Grow(size: Word) returns (nblock: int)
      requires Valid() && 0 < size <= maxAllocation && heapStart + HEADER + size + SBRK_STEP + HEADER <= RAM_SIZE
      modifies this`mem, this`headers, this`model, this`heapStart, this`heapSize
      ensures Valid() && nblock == old(model).top && SameOutside(old(mem), mem, headers.Keys)
      ensures old(headers.Keys) <= headers.Keys
      ensures model == old(model).(sizes := old(model).sizes[nblock := size], top := nblock + HEADER + size)
    {
      ghost var h := model;
      Sbrk(heapStart + HEADER + size - USER_HEAP);
      GrowTiled(h.sizes, h.top, size);
      GrowSettled(headers, h, size, maxAllocation);
      TopFresh(h, headers, heapSize, size);
      nblock := heapStart;
      heapStart := heapStart + HEADER + size;
      WriteNew(nblock, size);
      model := h.(sizes := h.sizes[h.top := size], top := h.top + HEADER + size);
    }

    /** Free block `block` is handed out. */
    method Stamp(block: int)
      requires Sound(mem, headers, model, heapStart, heapSize, maxAllocation, freeList, {block}) && Live(model, block)
      modifies this`mem, this`headers
      ensures Valid() && SameOutside(old(mem), mem, headers.Keys) && headers.Keys == old(headers.Keys)
    {
      StampSettled(headers, model, block, maxAllocation);
      WriteNext(block, LIVE_LINK);
      WritePrev(block, LIVE_LINK);
    }

    /** malloc once the heap is large enough. */
    method Provide(size: Word) returns (p: int)
      requires Valid() && Room(size) && 0 < size <= maxAllocation
      modifies this`mem, this`headers, this`freeList, this`model, this`heapStart, this`heapSize
      ensures Valid() && SameOutside(old(mem), mem, headers.Keys)
      ensures p == Chosen(old(model), size) + HEADER && model == HeapModel.Malloc(old(model), size)
    {
      var block := FreeBlock(size);
      var header := Header(0, 0, 0, 0);
      if block != 0 {
        header := ReadHeader(block);
        assert header.guard == GUARD && header.size == size;
      }
      ghost var m1, bs := mem, headers.Keys;
      if block != 0 && header.guard == GUARD && header.size == size {
        Stamp(block);
        p := block + HEADER;
      } else {
        var nblock := Grow(size);
        p := nblock + HEADER;
      }
      SameOutsideTwice(old(mem), m1, mem, bs, headers.Keys);
    }

    /** What malloc does before it looks for a block. */
    method Prepare(size: Word)
      requires Valid() && Room(size) && size > 0
      modifies this`heapSize, this`maxAllocation
      ensures Valid() && maxAllocation == if size > old(maxAllocation) then size else old(maxAllocation)
    {
      if FirstFit(model, size, 0) < |model.free| {
        FitsBelowTop(model, size);
      }
      Sbrk(size);
      if size > maxAllocation {
        SoundLarger(mem, headers, model, heapStart, heapSize, heapSize, maxAllocation, size, freeList);
        maxAllocation := size;
      }
    }

    /** malloc of some bytes. */
    method Obtain(size: Word) returns (p: int)
      requires Valid() && Room(size) && size > 0
      modifies this
      ensures Valid() && PayloadKept(old(model), old(mem), mem)
      ensures model == HeapModel.Malloc(old(model), size) && p == Chosen(old(model), size) + HEADER
    {
      ghost var h, m := model, mem;
      MallocKeeps(h, size);
      Prepare(size);
      p := Provide(size);
      OutsideKeepsPayload(h, model, m, mem);
    }

    method Malloc(size: Word) returns (p: int)
      requires Valid() && Room(size)
      modifies this
      ensures Valid() && PayloadKept(old(model), old(mem), mem)
      ensures model == AllocIf(old(model), size)
      ensures size == 0 ==> p == 0 && mem == old(mem)
      ensures size > 0 ==> p == Chosen(old(model), size) + HEADER
      ensures size > 0 ==> Live(model, p - HEADER) && model.sizes[p - HEADER] == size && !Live(old(model), p - HEADER)
      ensures StillThere(old(model), model) && forall b | Live(old(model), b) :: Live(model, b)
      ensures size > 0 ==> LowestFit(old(model), size, p - 13)
    {
      if size == 0 {
        return 0;
      }
      MallocKeeps(model, size);
      ChosenLowest(model, size);
      p := Obtain(size);
    }

    method Free(p: Word)
      requires Valid() && (Validate(heapSize, p) ==> p - HEADER in model.sizes)
      modifies this`mem, this`headers, this`freeList, this`model
      ensures Valid() && model == FreeIf(old(model), p) && SameOutside(old(mem), mem, headers.Keys)
      ensures PayloadKept(old(model), old(mem), mem)
      ensures !Live(old(model), p - 13) ==> mem == old(mem) && freeList == old(freeList) && model == old(model)
      ensures Live(old(model), p - 13) ==>
        && model.sizes == old(model).sizes && model.top == old(model).top
        && forall b :: b in model.free <==> b == p - 13 || b in old(model).free
    {
      ghost var h := model;
      if !Validate(heapSize, p) {
        return;
      }
      var block := p - HEADER;
      var header := ReadHeader(block);
      StampTells(mem, headers, h, heapStart, heapSize, maxAllocation, freeList, block);
      if header.guard != GUARD || header.size > maxAllocation || header.next != LIVE_LINK || header.prev != LIVE_LINK {
        return;
      }
      FreeKeeps(h, block);
      forall b
        ensures b in HeapModel.Free(h, block).free <==> b == block || b in h.free
      {
        InsertMember(h.free, block, b);
      }
      FreeSettled(headers, h, block, maxAllocation);
      ghost var hd := headers;
      FreeInsert(block, h.free);
      InsertSettled(hd, headers, h, block, maxAllocation, {});
      model := HeapModel.Free(h, block);
      OutsideKeepsPayload(h, model, old(mem), mem);
    }

    /** A caller's own store, into a block it holds. */
    method StoreByte(a: int, v: Byte, ghost b: int)
      requires Valid() && Live(model, b) && b + HEADER <= a < End(model.sizes, b)
      modifies this`mem
      ensures Valid() && mem == old(mem)[a := v]
    {
      PayloadStore(mem, mem[a := v], headers, model, b, a, a + 1);
      mem := mem[a := v];
    }

    /** memset with 0. */
    method Clear(p: int, n: nat, ghost b: int)
      requires Valid() && (n > 0 ==> Live(model, b) && b + HEADER <= p && p + n <= End(model.sizes, b))
      modifies this`mem
      ensures Valid() && forall i | 0 <= i < RAM_SIZE :: mem[i] == if p <= i < p + n then 0 else old(mem)[i]
    {
      for i := 0 to n
        invariant Valid()
        invariant forall j | 0 <= j < RAM_SIZE :: mem[j] == if p <= j < p + i then 0 else old(mem)[j]
      {
        StoreByte(p + i, 0, b);
      }
    }

    /** memmove: the ranges may overlap. */
    method Memmove(dst: int, src: int, n: nat, ghost b: int)
      requires Valid() && 0 <= src && src + n <= RAM_SIZE
      requires n > 0 ==> Live(model, b) && b + HEADER <= dst && dst + n <= End(model.sizes, b)
      modifies this`mem
      ensures Valid()
      ensures Moved(old(mem), mem, dst, src, dst, dst + n)
    {
      ghost var m := mem;
      if dst < src {
        for i := 0 to n
          invariant Valid()
          invariant Moved(m, mem, dst, src, dst, dst + i)
        {
          assert mem[src + i] == m[src + i] && src + i == src - dst + (dst + i);
          StoreByte(dst + i, mem[src + i], b);
        }
      } else {
        for i := n downto 0
          invariant Valid()
          invariant Moved(m, mem, dst, src, dst + i, dst + n)
        {
          assert mem[src + i] == m[src + i] && src + i == src - dst + (dst + i);
          StoreByte(dst + i, mem[src + i], b);
        }
      }
    }

    /** The product of the arguments is taken in 32 bits. */
    method Calloc(num: Word, size: Word) returns (p: int)
      requires Valid() && Room(Product(num, size))
      modifies this
      ensures Product(num, size) == num * size <==> num * size < 0x1_0000_0000
      ensures var product: nat := num * size;
              var n := product % 0x1_0000_0000;
              && Valid() && PayloadKept(old(model), old(mem), mem)
              && model == AllocIf(old(model), n)
              && (n == 0 ==> p == 0 && mem == old(mem))
              && (n > 0 ==> p == Chosen(old(model), n) + HEADER)
              && (n > 0 ==> forall a | 0 <= a < RAM_SIZE && p <= a < p + n :: mem[a] == 0)
    {
      var n := Product(num, size);
      ghost var h, m := model, mem;
      p := Malloc(n);
      if n > 0 {
        ghost var m1 := mem;
        Clear(p, n, p - HEADER);
        StoresKeepPayload(h, model, m, m1, mem, p - HEADER, n);
      }
    }

    /** What realloc copies. */
    method CopyContents(p: Word, r: int, size: Word, ghost h: Model, ghost m: Ram) returns (n: nat)
      requires Valid() && Live(h, p - HEADER) && Live(model, p - HEADER)
      requires model.sizes[p - HEADER] == h.sizes[p - HEADER]
      requires StillThere(h, model)
      requires PayloadKept(h, m, mem)
      requires size > 0 ==> Live(model, r - HEADER) && model.sizes[r - HEADER] == size && !Live(h, r - HEADER)
      modifies this`mem
      ensures Valid() && PayloadKept(h, m, mem)
      ensures n == Kept(h, p - HEADER, size) && p + n <= RAM_SIZE && Copied(m, mem, p, r, n)
    {
      var header := ReadHeader(p - HEADER);
      n := if header.size >= size then size else header.size;
      ghost var m1 := mem;
      Memmove(r, p, n, r - HEADER);
      if size > 0 {
        StoresKeepPayload(h, model, m, m1, mem, r - HEADER, n);
      }
      CopiedBytes(h, model, m, m1, mem, p - HEADER, r, n);
    }

    /** free, with a copy of `n` bytes just made at `r`. */
    method FreeCopied(p: Word, r: int, n: nat, ghost h: Model, ghost m: Ram)
      requires Valid() && Live(model, p - HEADER) && PayloadKept(h, m, mem)
      requires StillThere(h, model) && forall c | Live(h, c) :: Live(model, c)
      requires p + n <= RAM_SIZE && Copied(m, mem, p, r, n)
      requires n > 0 ==> Live(model, r - HEADER) && n <= model.sizes[r - HEADER]
      modifies this`mem, this`headers, this`freeList, this`model
      ensures Valid() && model == FreeIf(old(model), p) && PayloadKept(h, m, mem) && Copied(m, mem, p, r, n)
    {
      ghost var h1, m2 := model, mem;
      Free(p);
      ReleaseKeepsPayload(h, h1, p - HEADER, m, m2, mem);
      if n > 0 {
        CopyStays(h1, m, m2, mem, p, r, n);
      }
    }

    /** Its three steps: a new block, the copy, the old block given back. */
    method Reallocate(p: Word, size: Word) returns (r: int)
      requires Valid() && Room(size) && Live(model, p - HEADER)
      modifies this
      ensures Valid() && PayloadKept(old(model), old(mem), mem)
      ensures model == FreeIf(AllocIf(old(model), size), p)
      ensures r == if size == 0 then 0 else Chosen(old(model), size) + HEADER
      ensures Kept(old(model), p - HEADER, size) + p <= RAM_SIZE
      ensures Copied(old(mem), mem, p, r, Kept(old(model), p - HEADER, size))
      ensures size > 0 ==> Live(model, r - HEADER) && model.sizes[r - HEADER] == size
    {
      ghost var h, m := model, mem;
      r := Malloc(size);
      FreeIfKeeps(model, p);
      var n := CopyContents(p, r, size, h, m);
      FreeCopied(p, r, n, h, m);
    }

    /** realloc. */
    method Realloc(p: Word, size: Word) returns (r: int)
      requires Valid() && Room(size) && Live(model, p - HEADER)
      modifies this
      ensures Valid() && PayloadKept(old(model), old(mem), mem)
      ensures model == FreeIf(AllocIf(old(model), size), p)
      ensures r == if size == 0 then 0 else Chosen(old(model), size) + HEADER
      ensures size > 0 ==> Live(model, r - 13) && model.sizes[r - 13] == size
      ensures old(model).top <= RAM_SIZE && forall a | 0 <= a < RAM_SIZE && r <= a < r + size
        && a < r + old(model).sizes[p - 13] :: mem[a] == old(mem)[p + (a - r)]
    {
      r := Reallocate(p, size);
    }

    /** The tests of mem_check on one block. */
    method CheckBlock(block: int) returns (errors: int)
      requires WellFormed(model) && Placed(mem, headers, heapSize) && headers.Keys == model.sizes.Keys
      requires model.top == heapStart && block in headers && headers[block].size == model.sizes[block]
      ensures errors >= 0 && (errors == 0 ==> Passes(block, headers[block], heapSize, maxAllocation))
      ensures errors > 0 ==> exists b | b in headers :: !Passes(b, headers[b], heapSize, maxAllocation)
    {
      var h := ReadHeader(block);
      var next := block + HEADER + h.size;
      assert Chained(model.sizes, model.top, block);
      errors := 0;
      if h.guard != GUARD || h.size > maxAllocation {
        errors := errors + 1;
      } else if next < heapStart {
        var h2 := ReadHeader(next);
        if h2.guard != GUARD || h2.size > maxAllocation {
          errors := errors + 1;
        }
      }
      if (h.next != 0 && h.next != LIVE_LINK && !Validate(heapSize, h.next))
        || (h.prev != 0 && h.prev != LIVE_LINK && !Validate(heapSize, h.prev)) {
        errors := errors + 1;
      }
      if (h.next != LIVE_LINK && h.prev != LIVE_LINK)
        && ((h.next != 0 && h.next < block) || (h.prev != 0 && h.prev > block)) {
        errors := errors + 1;
      }
    }

    /** mem_check counts an error exactly when some block fails its tests, whatever the guards and links
        are, as long as the sizes lead from block to block. */
    method MemCheck() returns (errors: int)
      requires WellFormed(model) && Placed(mem, headers, heapSize) && headers.Keys == model.sizes.Keys
      requires model.top == heapStart <= USER_HEAP + heapSize
      requires forall b | b in headers :: headers[b].size == model.sizes[b]
      ensures errors == 0 <==> forall b | b in headers ::
                                 var h := headers[b];
                                 && h.guard == 0xED && h.size <= maxAllocation
                                 && (h.next == 0 || h.next == 0xAABB_CCDD || 0 <= h.next - 0xD000_0000 <= heapSize)
                                 && (h.prev == 0 || h.prev == 0xAABB_CCDD || 0 <= h.prev - 0xD000_0000 <= heapSize)
                                 && (h.next != 0xAABB_CCDD && h.prev != 0xAABB_CCDD ==>
                                       (h.next == 0 || b <= h.next) && h.prev <= b)
    {
      var block := USER_HEAP;
      errors := 0;
      while Validate(heapSize, block) && block < heapStart
        invariant block in headers || block == heapStart
        invariant errors >= 0
        invariant errors == 0 ==> forall b | b in headers && b < block :: Passes(b, headers[b], heapSize, maxAllocation)
        invariant errors > 0 ==> exists b | b in headers :: !Passes(b, headers[b], heapSize, maxAllocation)
        decreases heapStart - block
      {
        var h := ReadHeader(block);
        var next := block + HEADER + h.size;
        assert Chained(model.sizes, model.top, block);
        forall b | b in headers && b < next
          ensures b <= block
        {
          assert Ordered(model.sizes, block, b);
        }
        var e := CheckBlock(block);
        errors := errors + e;
        if h.size == 0 {
          errors := errors + 1;
          break;
        }
        block := next;
      }
    }

    constructor (m: Ram)
      ensures Valid() && model == EMPTY && mem == m && heapStart == 0xD000_0000 && heapSize == 256 * 1024
    {
      mem, heapStart, heapSize, maxAllocation, freeList := m, USER_HEAP, USER_HEAP_SIZE, 0, 0;
      headers, model := map[], EMPTY;
    }

    method PerformResize(r: Request)
      requires Valid() && r.Resize? && Live(model, r.held - HEADER) && Room(r.size)
      modifies this
      ensures Valid() && model == Serve(old(model), r) && PayloadKept(old(model), old(mem), mem)
      ensures old(model).top <= RAM_SIZE && CarriedOver(old(model), r, old(mem), mem)
    {
      var _ := Realloc(r.held, r.size);
    }

    /** One step of a client. */
    method Perform(r: Request)
      requires Valid() && Proper(model, r) && Room(Asked(r))
      modifies this
      ensures Valid() && model == Serve(old(model), r)
      ensures forall a | 0 <= a < RAM_SIZE && Owned(old(model), a) :: mem[a] == if r.Put? && r.a == a then r.v
        else old(mem)[a]
      ensures old(model).top <= RAM_SIZE && (r.Resize? ==> CarriedOver(old(model), r, old(mem), mem))
    {
      match r {
        case Alloc(size) => var _ := Malloc(size);
        case AllocClear(num, each) => var _ := Calloc(num, each);
        case Resize(_, _) => PerformResize(r);
        case Release(p) => Free(p);
        case Put(a, v) =>
          ghost var b :| Live(model, b) && b + HEADER <= a < End(model.sizes, b);
          StoreByte(a, v, b);
      }
    }

    /** Any run of calls and stores that a client may make: the heap is what the model computes, and every byte
        of a block is what the client stored there last, wherever resizing has carried it. */
    method Session(rs: seq<Request>, ghost h': Model)
      requires Valid() && Served(model, rs, h')
      requires AllFit32(model, rs)
      modifies this
      ensures Valid() && model == h' && AllFollow(old(model), rs, old(mem), model, mem)
      decreases |rs|
    {
      if rs == [] {
        return;
      }
      ghost var h, m := model, mem;
      ServeKeeps(h, rs[0]);
      Perform(rs[0]);
      ghost var h1, m1 := model, mem;
      Session(rs[1..], h');
      forall b, i: nat | Holds(h, b, i)
        ensures Follows(h, rs, b, i, m[b + HEADER + i], model, mem)
      {
        FollowsStep(h, h1, rs, b, i, m, m1, model, mem);
      }
    }
  }
}
