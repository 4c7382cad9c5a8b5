/** Cluster chains and file reads of the FAT driver, over the sectors of its device. */
module Fat {
  import opened Arithmetic
  import opened Words

  const TWO32: int := 0x1_0000_0000
  const TWO64: int := 0x1_0000_0000_0000_0000
  const CHAIN_MASK: int := 0x1000_0000
  const BAD_CLUSTER: int := 0x0FFF_FFF7
  const CHAIN_END: int := 0x0FFF_FFF8

  type Offset = x: int | 0 <= x < TWO64

  /** The geometry in the boot sector. */
  datatype Bpb = Bpb(bytesPerSector: nat, sectorsPerCluster: nat, reserved: nat, fatCount: nat, direntCount: nat,
    fatSize: nat)

  /** A device: what one-sector reads return, by sector number. */
  type Device = int -> seq<Byte>

  ghost predicate Formatted(device: Device, b: Bpb)
  {
    && b.bytesPerSector > 0 && b.bytesPerSector % 4 == 0 && b.sectorsPerCluster > 0
    && 0 < ClusterBytes(b) < TWO32
    && forall s :: |device(s)| == b.bytesPerSector
  }

  function ClusterBytes(b: Bpb): nat { b.sectorsPerCluster * b.bytesPerSector }

  function FirstDataSector(b: Bpb): int
    requires b.bytesPerSector > 0
  {
    b.reserved + b.fatCount * b.fatSize + (b.direntCount * 32 + (b.bytesPerSector - 1)) / b.bytesPerSector
  }

  /** The first sector of a cluster, in 32 bits. */
  function ClusterSector(b: Bpb, cluster: Word): int
    requires b.bytesPerSector > 0
  {
    ((cluster - 2) * b.sectorsPerCluster + FirstDataSector(b)) % TWO32
  }

  function Sectors(device: Device, first: int, n: nat): seq<Byte>
  {
    if n == 0 then [] else Sectors(device, first, n - 1) + device((first + n - 1) % TWO32)
  }

  function Data(device: Device, b: Bpb, cluster: Word): seq<Byte>
    requires b.bytesPerSector > 0
  {
    Sectors(device, ClusterSector(b, cluster), b.sectorsPerCluster)
  }

  lemma {:induction false} SectorsLength(device: Device, b: Bpb, first: int, n: nat)
    requires Formatted(device, b)
    ensures |Sectors(device, first, n)| == n * b.bytesPerSector
  {
    if n > 0 {
      SectorsLength(device, b, first, n - 1);
      assert n * b.bytesPerSector == (n - 1) * b.bytesPerSector + b.bytesPerSector;
    }
  }

  function Word32(s: seq<Byte>, at: nat): int
    requires at + 4 <= |s|
  {
    s[at] as int + 0x100 * s[at + 1] as int + 0x1_0000 * s[at + 2] as int + 0x100_0000 * s[at + 3] as int
  }

  lemma EntryFits(offset: nat, n: nat)
    requires n > 0 && n % 4 == 0 && offset % 4 == 0
    ensures offset % n + 4 <= n
  {
    var m := n / 4;
    var k := offset / n * m;
    assert offset / n * n == 4 * k;
    assert offset % n == 4 * (offset / 4 - k);
  }

  /** Where in its sector the table's entry for a cluster starts. */
  function EntryOffset(cluster: Word, n: nat): (r: nat)
    requires n > 0 && n % 4 == 0
    ensures r + 4 <= n
  {
    EntryFits(cluster * 4 % TWO32, n);
    cluster * 4 % TWO32 % n
  }

  function EntrySector(b: Bpb, cluster: Word): int
    requires b.bytesPerSector > 0
  {
    b.reserved + cluster * 4 % TWO32 / b.bytesPerSector
  }

  /** What a table entry means: the next cluster, or 0 at the end of a chain. */
  function Successor(entry: int): Word
    requires entry >= 0
  {
    var next := entry % CHAIN_MASK;
    if next >= CHAIN_END || next == BAD_CLUSTER then 0 else next
  }

  /** The four bytes at `at` hold the number `v` in their low 28 bits, least significant byte first. */
  ghost predicate Encodes(s: seq<Byte>, at: nat, v: int)
    requires at + 4 <= |s|
  {
    && 0 <= v < CHAIN_MASK
    && s[at] == v % 0x100 && s[at + 1] == v / 0x100 % 0x100 && s[at + 2] == v / 0x1_0000 % 0x100
    && s[at + 3] % 0x10 == v / 0x100_0000
  }

  /** Every entry encodes one number, whatever its top four bits. */
  lemma Encoded(s: seq<Byte>, at: nat, v: int)
    requires at + 4 <= |s|
    ensures Encodes(s, at, v) <==> v == Word32(s, at) % CHAIN_MASK
  {
    var top := s[at + 3] as int;
    var low := s[at] + 0x100 * (s[at + 1] + 0x100 * (s[at + 2] + 0x100 * (top % 0x10)));
    DivMod(Word32(s, at), CHAIN_MASK, top / 0x10, low);
    ByteDigits(low, s[at], s[at + 1], s[at + 2], top % 0x10);
    if Encodes(s, at, v) {
      Joined(v);
    }
  }

  lemma ByteDigits(v: nat, d0: Byte, d1: Byte, d2: Byte, d3: Byte)
    requires v == d0 + 0x100 * (d1 + 0x100 * (d2 + 0x100 * d3))
    ensures v % 0x100 == d0 && v / 0x100 % 0x100 == d1 && v / 0x1_0000 % 0x100 == d2 && v / 0x100_0000 == d3
  {
    DivMod(v, 0x100, d1 + 0x100 * (d2 + 0x100 * d3), d0);
    DivMod(v, 0x1_0000, d2 + 0x100 * d3, d0 + 0x100 * d1);
    DivMod(v, 0x100_0000, d3, d0 + 0x100 * d1 + 0x1_0000 * d2);
  }

  lemma Joined(v: nat)
    ensures v == v % 0x100 + 0x100 * (v / 0x100 % 0x100 + 0x100 * (v / 0x1_0000 % 0x100 + 0x100 * (v / 0x100_0000)))
  {
    var q1 := v / 0x100;
    var q2 := q1 / 0x100;
    var q3 := q2 / 0x100;
    DivMod(v, 0x1_0000, q2, v % 0x100 + 0x100 * (q1 % 0x100));
    DivMod(v, 0x100_0000, q3, v % 0x100 + 0x100 * (q1 % 0x100) + 0x1_0000 * (q2 % 0x100));
  }

  ghost function Next(device: Device, b: Bpb, cluster: Word): Word
    requires Formatted(device, b)
  {
    Successor(Word32(device(EntrySector(b, cluster)), EntryOffset(cluster, b.bytesPerSector)))
  }

  /** The cluster `n` links further; 0 once the chain has ended. */
  ghost function Walk(device: Device, b: Bpb, cluster: Word, n: nat): Word
    requires Formatted(device, b)
    decreases n
  {
    if n == 0 || cluster == 0 then cluster else Walk(device, b, Next(device, b, cluster), n - 1)
  }

  lemma DataLength(device: Device, b: Bpb, cluster: Word)
    requires Formatted(device, b)
    ensures |Data(device, b, cluster)| == ClusterBytes(b)
  {
    SectorsLength(device, b, ClusterSector(b, cluster), b.sectorsPerCluster);
  }

  lemma {:induction false} SectorsByte(device: Device, b: Bpb, first: int, n: nat, k: nat)
    requires Formatted(device, b) && k < n * b.bytesPerSector
    ensures |Sectors(device, first, n)| == n * b.bytesPerSector
      && |device((first + k / b.bytesPerSector) % TWO32)| == b.bytesPerSector
    ensures Sectors(device, first, n)[k] == device((first + k / b.bytesPerSector) % TWO32)[k % b.bytesPerSector]
  {
    var size := b.bytesPerSector;
    SectorsLength(device, b, first, n);
    SectorsLength(device, b, first, n - 1);
    assert n * size == (n - 1) * size + size;
    if k < (n - 1) * size {
      SectorsByte(device, b, first, n - 1, k);
    } else {
      DivMod(k, size, n - 1, k - (n - 1) * size);
    }
  }

  lemma WrapOnce(x: int, k: int)
    ensures (x % TWO32 + k) % TWO32 == (x + k) % TWO32
  {
    DivMod(x + k, TWO32, x / TWO32 + (x % TWO32 + k) / TWO32, (x % TWO32 + k) % TWO32);
  }

  /** Where the bytes of a cluster are: the data start behind the reserved sectors, all the tables, and the whole
      sectors of a root directory with 32 bytes to an entry; cluster 2 is the first. */
  lemma DataByte(device: Device, b: Bpb, cluster: Word, roots: nat, i: nat, j: nat)
    requires Formatted(device, b) && i < b.sectorsPerCluster && j < b.bytesPerSector
    requires (roots - 1) * b.bytesPerSector < 32 * b.direntCount <= roots * b.bytesPerSector
    ensures |Data(device, b, cluster)| == b.sectorsPerCluster * b.bytesPerSector
    ensures 0 <= i * b.bytesPerSector + j < |Data(device, b, cluster)|
    ensures Data(device, b, cluster)[i * b.bytesPerSector + j] ==
            device((b.reserved + b.fatCount * b.fatSize + roots + (cluster - 2) * b.sectorsPerCluster + i)
                     % 0x1_0000_0000)[j]
  {
    var size := b.bytesPerSector;
    DataLength(device, b, cluster);
    SectorsFit(device, b, ClusterSector(b, cluster), i);
    SectorsLength(device, b, ClusterSector(b, cluster), i);
    var k := i * size + j;
    DivMod(k, size, i, j);
    SectorsByte(device, b, ClusterSector(b, cluster), b.sectorsPerCluster, k);
    DivMod(b.direntCount * 32 + (size - 1), size, roots, b.direntCount * 32 + (size - 1) - roots * size);
    WrapOnce((cluster - 2) * b.sectorsPerCluster + FirstDataSector(b), i);
  }

  /** The same for byte `k` of the cluster. */
  lemma DataAt(device: Device, b: Bpb, cluster: Word, k: nat)
    requires Formatted(device, b) && k < b.sectorsPerCluster * b.bytesPerSector
    ensures |Data(device, b, cluster)| == b.sectorsPerCluster * b.bytesPerSector
    ensures Data(device, b, cluster)[k] ==
            device((b.reserved + b.fatCount * b.fatSize + (32 * b.direntCount + b.bytesPerSector - 1) / b.bytesPerSector
                    + (cluster - 2) * b.sectorsPerCluster + k / b.bytesPerSector) % 0x1_0000_0000)[k % b.bytesPerSector]
  {
    DataLength(device, b, cluster);
    SectorsByte(device, b, ClusterSector(b, cluster), b.sectorsPerCluster, k);
    WrapOnce((cluster - 2) * b.sectorsPerCluster + FirstDataSector(b), k / b.bytesPerSector);
  }

  /** The file that starts at `cluster` at position q * ClusterBytes + r, None past the end of the chain. */
  ghost function ByteIn(device: Device, b: Bpb, cluster: Word, q: nat, r: nat): Option<Byte>
    requires Formatted(device, b) && r < ClusterBytes(b)
  {
    var c := Walk(device, b, cluster, q);
    DataLength(device, b, c);
    if c == 0 then None else Some(Data(device, b, c)[r])
  }

  ghost function ByteAt(device: Device, b: Bpb, cluster: Word, p: nat): Option<Byte>
    requires Formatted(device, b)
  {
    var size := ClusterBytes(b);
    ByteIn(device, b, cluster, p / size, p % size)
  }

  /** kread of one sector. */
  method ReadSector(device: Device, sector: int, n: nat, buffer: array<Byte>, at: nat)
    requires |device(sector)| == n && at + n <= buffer.Length
    modifies buffer
    ensures buffer[..] == old(buffer[..at]) + device(sector) + old(buffer[at + n..])
  {
    var data := device(sector);
    forall i | 0 <= i < n {
      buffer[at + i] := data[i];
    }
  }

  lemma SectorsFit(device: Device, b: Bpb, first: int, n: nat)
    requires Formatted(device, b) && n < b.sectorsPerCluster
    ensures |Sectors(device, first, n)| + b.bytesPerSector <= ClusterBytes(b)
  {
    SectorsLength(device, b, first, n + 1);
    var rest := b.sectorsPerCluster - (n + 1);
    assert rest * b.bytesPerSector >= 0;
    assert ClusterBytes(b) == (n + 1) * b.bytesPerSector + rest * b.bytesPerSector;
  }

  /** fat_read_cluster: the contents of a cluster, into a buffer of its size. */
  method ReadCluster(device: Device, b: Bpb, cluster: Word, buffer: array<Byte>)
    requires Formatted(device, b) && buffer.Length == ClusterBytes(b)
    modifies buffer
    ensures buffer[..] == Data(device, b, cluster)
    ensures forall k | 0 <= k < buffer.Length ::
      buffer[k] ==
        device((b.reserved + b.fatCount * b.fatSize + (32 * b.direntCount + b.bytesPerSector - 1) / b.bytesPerSector
                + (cluster - 2) * b.sectorsPerCluster + k / b.bytesPerSector) % 0x1_0000_0000)[k % b.bytesPerSector]
  {
    FillCluster(device, b, cluster, buffer);
    forall k | 0 <= k < buffer.Length
      ensures buffer[k] ==
        device((b.reserved + b.fatCount * b.fatSize + (32 * b.direntCount + b.bytesPerSector - 1) / b.bytesPerSector
                + (cluster - 2) * b.sectorsPerCluster + k / b.bytesPerSector) % 0x1_0000_0000)[k % b.bytesPerSector]
    {
      DataAt(device, b, cluster, k);
      assert buffer[k] == buffer[..][k];
    }
  }

  /** Its loop. */
  method FillCluster(device: Device, b: Bpb, cluster: Word, buffer: array<Byte>)
    requires Formatted(device, b) && buffer.Length == ClusterBytes(b)
    modifies buffer
    ensures buffer[..] == Data(device, b, cluster)
  {
    var sector, at := ClusterSector(b, cluster), 0;
    for i := 0 to b.sectorsPerCluster
      invariant at == |Sectors(device, sector, i)| <= buffer.Length && buffer[..at] == Sectors(device, sector, i)
    {
      SectorsFit(device, b, sector, i);
      ghost var was := buffer[..at];
      ReadSector(device, (sector + i) % TWO32, b.bytesPerSector, buffer, at);
      assert buffer[..at + b.bytesPerSector] == was + device((sector + i) % TWO32);
      assert sector + (i + 1) - 1 == sector + i;
      assert Sectors(device, sector, i + 1) == was + device((sector + i) % TWO32);
      at := at + b.bytesPerSector;
    }
    DataLength(device, b, cluster);
    assert buffer[..buffer.Length] == buffer[..];
  }

  /** The table, which is behind the reserved sectors, has the number `v` for a cluster: in the low 28 bits of the
      four bytes from byte 4 * cluster on, least significant byte first. */
  ghost predicate TableHas(device: Device, b: Bpb, cluster: Word, v: int)
    requires Formatted(device, b)
  {
    var k, n := 4 * cluster % 0x1_0000_0000, b.bytesPerSector;
    && 0 <= v < 0x1000_0000
    && device(b.reserved + k / n)[k % n] == v % 0x100
    && device(b.reserved + (k + 1) / n)[(k + 1) % n] == v / 0x100 % 0x100
    && device(b.reserved + (k + 2) / n)[(k + 2) % n] == v / 0x1_0000 % 0x100
    && device(b.reserved + (k + 3) / n)[(k + 3) % n] % 0x10 == v / 0x100_0000
  }

  lemma TableEncodes(device: Device, b: Bpb, cluster: Word, v: int)
    requires Formatted(device, b)
    ensures TableHas(device, b, cluster, v) <==>
            Encodes(device(EntrySector(b, cluster)), EntryOffset(cluster, b.bytesPerSector), v)
  {
    var k, n := 4 * cluster % 0x1_0000_0000, b.bytesPerSector;
    EntryFits(k, n);
    AddWithin(k, 1, n);
    AddWithin(k, 2, n);
    AddWithin(k, 3, n);
  }

  /** ... and what it returns: the next cluster of the chain. */
  method NextCluster(device: Device, b: Bpb, cluster: Word) returns (next: Word)
    requires Formatted(device, b)
    ensures next == Next(device, b, cluster) < 0x0FFF_FFF7
    ensures next != 0 ==> TableHas(device, b, cluster, next)
    ensures forall v | TableHas(device, b, cluster, v) :: next == if v < 0x0FFF_FFF7 then v else 0
  {
    ghost var at := EntryOffset(cluster, b.bytesPerSector);
    forall v
      ensures TableHas(device, b, cluster, v) <==> v == Word32(device(EntrySector(b, cluster)), at) % CHAIN_MASK
    {
      TableEncodes(device, b, cluster, v);
      Encoded(device(EntrySector(b, cluster)), at, v);
    }
    var table := device(EntrySector(b, cluster));
    var entry := Word32(table, EntryOffset(cluster, b.bytesPerSector)) % CHAIN_MASK;
    if entry >= CHAIN_END || entry == BAD_CLUSTER {
      return 0;
    }
    return entry;
  }

  datatype File = File(first: Word, attribs: Byte, size: Word)

  const DIRECTORY: Byte := 0x10

  lemma Positive(d: int, c: int)
    requires c > 0 && d * c > 0
    ensures d > 0
  {
  }

  lemma DivParts(n: nat, c: nat)
    requires c > 0
    ensures n == (n / c) * c + n % c && n % c < c && n % c <= n
  {
    assert n / c >= 0;
    assert (n / c) * c >= 0;
  }

  lemma DropOne(n: nat, c: nat)
    requires c > 0 && n >= c
    ensures n / c > 0 && (n - c) / c == n / c - 1 && (n - c) % c == n % c
  {
    DivParts(n, c);
    Positive(n / c, c);
    assert (n / c - 1) * c == (n / c) * c - c;
    DivMod(n - c, c, n / c - 1, n % c);
  }

  lemma AddWithin(n: nat, k: nat, c: nat)
    requires c > 0 && n % c + k < c
    ensures (n + k) / c == n / c && (n + k) % c == n % c + k
  {
    DivParts(n, c);
    DivMod(n + k, c, n / c, n % c + k);
  }

  lemma Aligned(n: nat, c: nat)
    requires c > 0
    ensures n % c == 0 ==> (n + c) % c == 0
    ensures (n % c + (c - n % c)) % c == 0
  {
    DropOne(n + c, c);
    DivMod(c, c, 1, 0);
  }

  /** `m'` is `m` with file bytes from position `start` on in the `n` places from `at` on, as far as the
      chain goes. */
  ghost predicate Filled(device: Device, b: Bpb, first: Word, start: nat, m: seq<Byte>, m': seq<Byte>, at: nat, n: nat)
    requires Formatted(device, b)
  {
    && |m'| == |m|
    && forall i {:trigger m'[i]} | 0 <= i < |m| ::
      m'[i] == if at <= i < at + n && ByteAt(device, b, first, start + (i - at)).Some?
        then ByteAt(device, b, first, start + (i - at)).value else m[i]
  }

  lemma FilledTwice(device: Device, b: Bpb, first: Word, start: nat, m: seq<Byte>, m1: seq<Byte>, m2: seq<Byte>,
          at: nat, n: nat, k: nat)
    requires Formatted(device, b)
    requires Filled(device, b, first, start, m, m1, at, n) && Filled(device, b, first, start + n, m1, m2, at + n, k)
    ensures Filled(device, b, first, start, m, m2, at, n + k)
  {
    forall i | 0 <= i < |m|
      ensures m2[i] == if at <= i < at + n + k && ByteAt(device, b, first, start + (i - at)).Some?
        then ByteAt(device, b, first, start + (i - at)).value else m[i]
    {
      assert start + n + (i - (at + n)) == start + (i - at);
      assert m1[i] == m1[i];
    }
  }

  /** Inside one cluster: nothing, if the chain does not go so far; otherwise the cluster's bytes. */
  lemma FilledInCluster(device: Device, b: Bpb, first: Word, offset: nat, m: seq<Byte>, m': seq<Byte>, at: nat, n: nat,
          c: Word)
    requires Formatted(device, b) && at + n <= |m| && offset % ClusterBytes(b) + n <= ClusterBytes(b)
    requires c == Walk(device, b, first, offset / ClusterBytes(b))
    requires |m'| == |m| && |Data(device, b, c)| == ClusterBytes(b)
    requires forall i | 0 <= i < |m| ::
      m'[i] == if at <= i < at + n && c != 0 then Data(device, b, c)[offset % ClusterBytes(b) + (i - at)] else m[i]
    ensures Filled(device, b, first, offset, m, m', at, n)
  {
    forall i | 0 <= i < |m|
      ensures m'[i] == if at <= i < at + n && ByteAt(device, b, first, offset + (i - at)).Some?
        then ByteAt(device, b, first, offset + (i - at)).value else m[i]
    {
      if at <= i < at + n {
        AddWithin(offset, i - at, ClusterBytes(b));
      }
    }
  }

  predicate InOneCluster(b: Bpb, offset: nat, size: nat)
    requires ClusterBytes(b) > 0
  {
    offset % ClusterBytes(b) + size <= ClusterBytes(b)
  }

  /** Where in the file a read of `size` bytes at `offset` takes its bytes from. */
  function Start(b: Bpb, offset: nat, size: nat): nat
    requires ClusterBytes(b) > 0
  {
    if InOneCluster(b, offset, size) then offset else offset % ClusterBytes(b)
  }

  /** That is the place asked for exactly when the offset is in the first cluster or the request stays in
      one cluster. */
  lemma StartRight(b: Bpb, offset: nat, size: nat)
    requires ClusterBytes(b) > 0
    ensures Start(b, offset, size) == offset <==> offset < ClusterBytes(b) || InOneCluster(b, offset, size)
  {
    var c := ClusterBytes(b);
    if offset < c {
      DivMod(offset, c, 0, offset);
    } else {
      DivParts(offset, c);
    }
  }

  /** The sum is taken in 64 bits. */
  predicate PassesSize(file: File, offset: Offset, size: Word) { (offset + size) % TWO64 <= file.size }

  ghost predicate Refused(device: Device, b: Bpb, file: File, offset: Offset, size: Word)
    requires Formatted(device, b)
  {
    var c := ClusterBytes(b);
    file.attribs == DIRECTORY || !PassesSize(file, offset, size) || Walk(device, b, file.first, offset / c) == 0
  }

  /** How many bytes the inner reads of a request that spans clusters deliver, from `left` on: all, or if it ends
      past the file's size, which only a sum that wraps lets through, the clusters that are whole in the file. */
  function Reach(left: nat, size: nat, fileSize: nat, c: nat): (n: nat)
    requires left < c < left + size
    ensures n <= size
  {
    if left + size <= fileSize then size
    else if fileSize < c then 0
    else
      DivParts(fileSize, c);
      Multiple(fileSize / c, c);
      DivAtLeast(fileSize, c);
      fileSize / c * c - left
  }

  lemma DivAtLeast(n: nat, c: nat)
    requires c > 0 && n >= c
    ensures n / c >= 1
  {
    DropOne(n, c);
  }

  lemma ReachAt(left: nat, done: nat, size: nat, fileSize: nat, c: nat)
    requires left < c < left + size && (left + done) % c == 0 && c <= left + done <= fileSize < left + done + c
    requires fileSize < left + size
    ensures Reach(left, size, fileSize, c) == done
  {
    DivParts(left + done, c);
    DivMod(fileSize, c, (left + done) / c, fileSize - (left + done));
  }

  /** ... after the first `done` of them. */
  function ReachUpTo(left: nat, done: nat, size: nat, fileSize: nat, c: nat): nat
    requires left < c < left + size
  {
    if left + done <= fileSize then done else Reach(left, size, fileSize, c)
  }

  /** How much of a request is delivered. */
  function Delivered(b: Bpb, file: File, offset: nat, size: nat): (n: nat)
    requires ClusterBytes(b) > 0
    ensures n <= size
  {
    if InOneCluster(b, offset, size) then size
    else Reach(offset % ClusterBytes(b), size, file.size, ClusterBytes(b))
  }

  /** All of it, unless the sum wraps. */
  lemma AllDelivered(b: Bpb, file: File, offset: Offset, size: Word)
    requires ClusterBytes(b) > 0 && PassesSize(file, offset, size)
    ensures offset + size < TWO64 ==> Delivered(b, file, offset, size) == size
  {
    DivParts(offset, ClusterBytes(b));
  }

  /** The chain reaches every position of the file. */
  ghost predicate Covers(device: Device, b: Bpb, file: File)
    requires Formatted(device, b)
  {
    forall p: nat {:trigger ByteAt(device, b, file.first, p)} | p < file.size :: ByteAt(device, b, file.first, p).Some?
  }

  /** A request that a file can answer in full. */
  ghost predicate Readable(device: Device, b: Bpb, file: File, offset: Offset, size: Word)
    requires Formatted(device, b)
  {
    file.attribs != 0x10 && offset + size <= file.size && Covers(device, b, file)
  }

  lemma ReadableNotRefused(device: Device, b: Bpb, file: File, offset: Offset, size: Word)
    requires Formatted(device, b) && Readable(device, b, file, offset, size) && size > 0
    ensures !Refused(device, b, file, offset, size)
  {
    assert ByteAt(device, b, file.first, offset).Some?;
  }

  /** Byte `r` of a file's cluster number `q` is `v`: of that cluster of the chain, which is on the device behind the
      reserved sectors, the tables and the root directory. */
  ghost predicate FileHasIn(device: Device, b: Bpb, first: Word, q: nat, r: nat, v: Byte)
    requires Formatted(device, b)
  {
    var c := Walk(device, b, first, q);
    && c != 0
    && v == device((b.reserved + b.fatCount * b.fatSize + (32 * b.direntCount + b.bytesPerSector - 1) / b.bytesPerSector
                    + (c - 2) * b.sectorsPerCluster + r / b.bytesPerSector) % 0x1_0000_0000)[r % b.bytesPerSector]
  }

  /** The file has `v` at position `p`. */
  ghost predicate FileHas(device: Device, b: Bpb, first: Word, p: nat, v: Byte)
    requires Formatted(device, b)
  {
    var size := ClusterBytes(b);
    FileHasIn(device, b, first, p / size, p % size, v)
  }

  lemma FileByteIn(device: Device, b: Bpb, first: Word, q: nat, r: nat, v: Byte)
    requires Formatted(device, b) && r < ClusterBytes(b)
    ensures FileHasIn(device, b, first, q, r, v) <==> ByteIn(device, b, first, q, r) == Some(v)
  {
    DataAt(device, b, Walk(device, b, first, q), r);
  }

  lemma FileByte(device: Device, b: Bpb, first: Word, p: nat, v: Byte)
    requires Formatted(device, b)
    ensures FileHas(device, b, first, p, v) <==> ByteAt(device, b, first, p) == Some(v)
  {
    var size := ClusterBytes(b);
    FileByteIn(device, b, first, p / size, p % size, v);
  }

  /** The `n` places from `at` on hold the file's bytes from `offset` on. */
  ghost predicate IsSlice(device: Device, b: Bpb, first: Word, offset: nat, m: seq<Byte>, at: nat, n: nat)
    requires Formatted(device, b) && at + n <= |m|
  {
    forall i {:trigger m[i]} | at <= i < at + n :: FileHas(device, b, first, offset + (i - at), m[i])
  }

  /** Filling from the right place delivers what was asked for. */
  lemma FilledIsSlice(device: Device, b: Bpb, file: File, offset: Offset, size: Word, m: seq<Byte>, m': seq<Byte>,
    at: nat)
    requires Formatted(device, b) && Readable(device, b, file, offset, size) && at + size <= |m|
    requires offset < ClusterBytes(b) || InOneCluster(b, offset, size)
    requires Filled(device, b, file.first, Start(b, offset, size), m, m', at, size)
    ensures IsSlice(device, b, file.first, offset, m', at, size)
  {
    StartRight(b, offset, size);
    forall i {:trigger m'[i]} | at <= i < at + size
      ensures FileHas(device, b, file.first, offset + (i - at), m'[i])
    {
      FileByte(device, b, file.first, offset + (i - at), m'[i]);
      assert ByteAt(device, b, file.first, offset + (i - at)).Some?;
    }
  }

  lemma ReadDelivers(device: Device, b: Bpb, file: File, offset: Offset, size: Word, m: seq<Byte>, m': seq<Byte>,
    at: nat)
    requires Formatted(device, b) && at + size <= |m| == |m'|
    requires !Refused(device, b, file, offset, size) ==>
      Filled(device, b, file.first, Start(b, offset, size), m, m', at, Delivered(b, file, offset, size))
    ensures Readable(device, b, file, offset, size) && (offset < ClusterBytes(b) || InOneCluster(b, offset, size)) ==>
      IsSlice(device, b, file.first, offset, m', at, size)
  {
    if Readable(device, b, file, offset, size) && size > 0 {
      ReadableNotRefused(device, b, file, offset, size);
      AllDelivered(b, file, offset, size);
      if offset < ClusterBytes(b) || InOneCluster(b, offset, size) {
        FilledIsSlice(device, b, file, offset, size, m, m', at);
      }
    }
  }

  /** The cluster that `offset` is in, for clusters of `size` bytes, and what is left of `offset` there; the
      loop ends on any chain. */
  method Seek(device: Device, b: Bpb, first: Word, offset: nat, size: nat) returns (cluster: Word, left: nat)
    requires Formatted(device, b) && size > 0
    ensures cluster == Walk(device, b, first, offset / size)
    ensures cluster != 0 ==> left == offset % size
  {
    cluster, left := first, offset;
    ghost var links := offset / size; // still to follow
    DivParts(offset, size);
    while left >= size && cluster != 0
      invariant left / size == links && left % size == offset % size
      invariant Walk(device, b, first, offset / size) == Walk(device, b, cluster, links)
      decreases left
    {
      DropOne(left, size);
      cluster := NextCluster(device, b, cluster);
      left := left - size;
      links := links - 1;
    }
    if left < size {
      DivMod(left, size, 0, left);
    }
  }

  /** The branch for a request inside one cluster. */
  method ReadInCluster(device: Device, b: Bpb, first: Word, cluster: Word, ghost offset: nat, left: nat, size: nat,
          buffer: array<Byte>, at: nat)
    requires Formatted(device, b) && at + size <= buffer.Length
    requires cluster == Walk(device, b, first, offset / ClusterBytes(b)) && cluster != 0
    requires left == offset % ClusterBytes(b) && left + size <= ClusterBytes(b)
    modifies buffer
    ensures Filled(device, b, first, offset, old(buffer[..]), buffer[..], at, size)
  {
    ghost var was := buffer[..];
    DataLength(device, b, cluster);
    var bigbuff := new Byte[ClusterBytes(b)](_ => 0);
    ReadCluster(device, b, cluster, bigbuff);
    ghost var data := bigbuff[..];
    forall i | 0 <= i < size {
      buffer[at + i] := bigbuff[left + i];
    }
    assert forall i | 0 <= i < buffer.Length :: buffer[i] == if at <= i < at + size then data[left + (i - at)]
      else was[i];
    FilledInCluster(device, b, first, offset, was, buffer[..], at, size, cluster);
  }

  /** Past the end of the chain there is nothing to fill in. */
  lemma FilledPastEnd(device: Device, b: Bpb, first: Word, offset: nat, m: seq<Byte>, at: nat, n: nat)
    requires Formatted(device, b) && at + n <= |m| && InOneCluster(b, offset, n)
    requires Walk(device, b, first, offset / ClusterBytes(b)) == 0
    ensures Filled(device, b, first, offset, m, m, at, n)
  {
    DataLength(device, b, 0);
    FilledInCluster(device, b, first, offset, m, m, at, n, 0);
  }

  lemma FilledNothing(device: Device, b: Bpb, first: Word, offset: nat, m: seq<Byte>, at: nat)
    requires Formatted(device, b)
    ensures Filled(device, b, first, offset, m, m, at, 0)
  {
  }

  /** When a request is refused: for a directory, past the size by the 64-bit sum, or past the end of the chain. */
  lemma RefusedExactly(device: Device, b: Bpb, file: File, offset: Offset, size: Word)
    requires Formatted(device, b)
    ensures Refused(device, b, file, offset, size) <==>
      || file.attribs == 0x10 || (offset + size) % 0x1_0000_0000_0000_0000 > file.size
      || Walk(device, b, file.first, offset / (b.sectorsPerCluster * b.bytesPerSector)) == 0
  {
    assert ClusterBytes(b) == b.sectorsPerCluster * b.bytesPerSector;
  }

  lemma RefusedInside(device: Device, b: Bpb, file: File, offset: Offset, size: Word)
    requires Formatted(device, b) && offset + size < TWO64 && file.attribs != DIRECTORY
    ensures Refused(device, b, file, offset, size) <==>
      offset + size > file.size || Walk(device, b, file.first, offset / ClusterBytes(b)) == 0
  {
    DivMod(offset + size, TWO64, 0, offset + size);
  }

  /** What an inner read of FatRead fills in, refused or not. */
  lemma PartFilled(device: Device, b: Bpb, file: File, offset: Offset, size: Word, m: seq<Byte>, m': seq<Byte>, at: nat)
    requires Formatted(device, b) && at + size <= |m|
    requires file.attribs != DIRECTORY && offset + size < TWO64 && InOneCluster(b, offset, size)
    requires Refused(device, b, file, offset, size) ==> m' == m
    requires !Refused(device, b, file, offset, size) ==> Filled(device, b, file.first, offset, m, m', at, size)
    ensures Filled(device, b, file.first, offset, m, m', at, if offset + size <= file.size then size else 0)
  {
    RefusedInside(device, b, file, offset, size);
    if offset + size > file.size {
      FilledNothing(device, b, file.first, offset, m, at);
    } else if Refused(device, b, file, offset, size) {
      FilledPastEnd(device, b, file.first, offset, m, at, size);
    }
  }

  /** kread of a part of the file that lies inside one cluster. */
  method ReadPart(device: Device, b: Bpb, file: File, offset: nat, size: nat, buffer: array<Byte>, at: nat)
    requires Formatted(device, b) && at + size <= buffer.Length
    requires file.attribs != DIRECTORY && offset + size < TWO64 && size < TWO32 && InOneCluster(b, offset, size)
    modifies buffer
    ensures Filled(device, b, file.first, offset, old(buffer[..]), buffer[..], at,
              if offset + size <= file.size then size else 0)
    decreases 0, 1
  {
    ghost var was := buffer[..];
    var _ := FatRead(device, b, file, offset, size, buffer, at);
    assert Delivered(b, file, offset, size) == size && Start(b, offset, size) == offset;
    PartFilled(device, b, file, offset, size, was, buffer[..], at);
  }

  /** One more part of a request that spans clusters. */
  method NextPart(device: Device, b: Bpb, file: File, left: nat, done: nat, n: nat, size: Word, buffer: array<Byte>,
          at: nat, ghost was: seq<Byte>)
    requires Formatted(device, b) && at + size <= buffer.Length && file.attribs != DIRECTORY
    requires left < ClusterBytes(b) < left + size && done + n <= size
    requires ClusterBytes(b) <= left + done && (left + done) % ClusterBytes(b) == 0
    requires n == ClusterBytes(b) || (n < ClusterBytes(b) && done + n == size)
    requires Filled(device, b, file.first, left, was, buffer[..], at,
               ReachUpTo(left, done, size, file.size, ClusterBytes(b)))
    modifies buffer
    ensures Filled(device, b, file.first, left, was, buffer[..], at,
              ReachUpTo(left, done + n, size, file.size, ClusterBytes(b)))
    decreases 0, 2
  {
    ghost var before, c := buffer[..], ClusterBytes(b);
    ReadPart(device, b, file, left + done, n, buffer, at + done);
    if left + done + n <= file.size {
      FilledTwice(device, b, file.first, left, was, before, buffer[..], at, done, n);
    } else if left + done <= file.size {
      ReachAt(left, done, size, file.size, c);
    }
  }

  /** The branch for a request that spans clusters; `left` is what the search has left of the offset. */
  method ReadAcross(device: Device, b: Bpb, file: File, left: nat, size: Word, buffer: array<Byte>,
          at: nat) returns (rest: nat)
    requires Formatted(device, b) && at + size <= buffer.Length
    requires file.attribs != DIRECTORY && left < ClusterBytes(b) < left + size
    modifies buffer
    ensures Filled(device, b, file.first, left, old(buffer[..]), buffer[..], at,
              Reach(left, size, file.size, ClusterBytes(b)))
    ensures rest == (left + size) % ClusterBytes(b)
    decreases 0, 3
  {
    var cluster := ClusterBytes(b);
    ghost var was := buffer[..];
    var psize := cluster - left;
    rest := size - psize;
    DivMod(left, cluster, 0, left);
    Aligned(left, cluster);
    ReadPart(device, b, file, left, psize, buffer, at);
    var done := psize; // psize + i * cluster
    while rest >= cluster
      invariant done + rest == size && done >= psize && (left + done) % cluster == 0
      invariant Filled(device, b, file.first, left, was, buffer[..], at,
                  ReachUpTo(left, done, size, file.size, cluster))
      decreases rest
    {
      NextPart(device, b, file, left, done, cluster, size, buffer, at, was);
      Aligned(left + done, cluster);
      rest := rest - cluster;
      done := done + cluster;
    }
    AddWithin(left + done, rest, cluster);
    if rest != 0 {
      NextPart(device, b, file, left, done, rest, size, buffer, at, was);
    }
  }

  /** fat_read. The buffer keeps what it had if the request is refused or the chain does not reach the
      offset; otherwise it gets the file's bytes from `Start` on, as many as are `Delivered`. */
  method FatRead(device: Device, b: Bpb, file: File, offset: Offset, size: Word, buffer: array<Byte>,
          at: nat) returns (r: nat)
    requires Formatted(device, b) && at + size <= buffer.Length
    modifies buffer
    ensures Refused(device, b, file, offset, size) ==> buffer[..] == old(buffer[..]) && r == 0
    ensures !Refused(device, b, file, offset, size) ==>
      && Filled(device, b, file.first, Start(b, offset, size), old(buffer[..]), buffer[..], at,
           Delivered(b, file, offset, size))
      && r == if InOneCluster(b, offset, size) then size else (offset % ClusterBytes(b) + size) % ClusterBytes(b)
    ensures Readable(device, b, file, offset, size) && (offset < ClusterBytes(b) || InOneCluster(b, offset, size)) ==>
      IsSlice(device, b, file.first, offset, buffer[..], at, size)
    decreases if InOneCluster(b, offset, size) then 0 else 1, 0
  {
    ghost var was := buffer[..];
    if file.attribs != DIRECTORY && (offset + size) % TWO64 <= file.size {
      var cluster, left := Seek(device, b, file.first, offset, ClusterBytes(b));
      if cluster == 0 {
        r := 0;
      } else if left + size <= ClusterBytes(b) {
        ReadInCluster(device, b, file.first, cluster, offset, left, size, buffer, at);
        r := size;
      } else {
        DivParts(offset, ClusterBytes(b));
        r := ReadAcross(device, b, file, left, size, buffer, at);
      }
    } else {
      r := 0;
    }
    ReadDelivers(device, b, file, offset, size, was, buffer[..], at);
  }

  /** A disk with sectors of four bytes, one sector to a cluster, and the chain 2, 3, 4. */
  function SmallDisk(s: int): (data: seq<Byte>)
    ensures |data| == 4
  {
    if s == 2 then [3, 0, 0, 0]
    else if s == 3 then [4, 0, 0, 0]
    else if s == 4 then [0xFF, 0xFF, 0xFF, 0x0F]
    else var v: Byte := s % 256; [v, v, v, v]
  }

  const SMALL: Bpb := Bpb(4, 1, 0, 1, 0, 16)

  lemma SmallData(c: Word)
    requires 2 <= c <= 4
    ensures Formatted(SmallDisk, SMALL) && Data(SmallDisk, SMALL, c) == SmallDisk(14 + c)
    ensures SmallDisk(14 + c)[0] == 14 + c
  {
    assert ClusterSector(SMALL, c) == 14 + c;
    assert Sectors(SmallDisk, 14 + c, 0) == [];
    assert Sectors(SmallDisk, 14 + c, 1) == [] + SmallDisk(14 + c);
  }

  lemma SmallNext()
    ensures Formatted(SmallDisk, SMALL) && Next(SmallDisk, SMALL, 2) == 3
  {
    assert EntryOffset(2, 4) == 0 && EntrySector(SMALL, 2) == 2;
    assert Word32(SmallDisk(2), 0) == 3;
  }

  /** Past the first cluster a request that spans clusters reads from the wrong place: here the first byte
      at offset 4 is that at offset 0. */
  lemma AcrossReadsElsewhere()
    ensures var file := File(2, 0, 12);
            && Formatted(SmallDisk, SMALL) && !Refused(SmallDisk, SMALL, file, 4, 8)
            && Start(SMALL, 4, 8) == 0
            && ByteAt(SmallDisk, SMALL, file.first, 0) == Some(16)
               && ByteAt(SmallDisk, SMALL, file.first, 4) == Some(17)
  {
    SmallNext();
    assert Walk(SmallDisk, SMALL, 2, 0) == 2 && Walk(SmallDisk, SMALL, 2, 1) == Walk(SmallDisk, SMALL, 3, 0) == 3;
    SmallData(2);
    SmallData(3);
  }
}
