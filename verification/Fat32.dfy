/**
 Reading files of a FAT32 volume (`fat32.c`): cluster chains and the file cursor.
 */
module Fat32 {
  import opened Words
  import opened Streamer

  const END_OF_CHAIN: Word := 0x0FFFFFF8

  /** Where the volume keeps its table and its data; all sizes in bytes. */
  datatype Volume = Volume(disk: seq<Byte>, fatStart: nat, dataStart: nat, clusterSize: nat)

  function Word32(b: seq<Byte>): Word
    requires |b| == 4
  {
    b[0] as int + 0x100 * b[1] as int + 0x1_0000 * b[2] as int + 0x100_0000 * b[3] as int
  }

  /** The product, by repeated addition. */
  function Times(size: nat, n: nat): nat {
    if n == 0 then 0 else Times(size, n - 1) + size
  }

  lemma {:induction false} TimesIsProduct(size: nat, n: nat)
    ensures Times(size, n) == n * size
  {
    if n > 0 {
      TimesIsProduct(size, n - 1);
    }
  }

  /** `k` clusters, in bytes. */
  function Span(v: Volume, k: nat): nat {
    Times(v.clusterSize, k)
  }

  /** Where the data of a cluster starts; clusters are numbered from 2. */
  function ClusterStart(v: Volume, cluster: Word): int {
    if cluster >= 2 then v.dataStart + Span(v, cluster - 2) else v.dataStart - Span(v, 2 - cluster)
  }

  function ClusterPos(v: Volume, cluster: Word): Word {
    Wrap(ClusterStart(v, cluster))
  }

  lemma ClusterStartIsProduct(v: Volume, cluster: Word)
    ensures ClusterStart(v, cluster) == v.dataStart + (cluster - 2) * v.clusterSize
  {
    if cluster >= 2 {
      TimesIsProduct(v.clusterSize, cluster - 2);
    } else {
      TimesIsProduct(v.clusterSize, 2 - cluster);
      assert (2 - cluster) * v.clusterSize == -((cluster - 2) * v.clusterSize);
    }
  }

  /** The table entry of a cluster. */
  function FatValue(v: Volume, cluster: Word): Word
    requires v.fatStart + 4 * cluster + 4 <= |v.disk|
  {
    Word32(v.disk[v.fatStart + 4 * cluster..v.fatStart + 4 * cluster + 4])
  }

  /** `bytes` are the digits of `n` to the base 256, the lowest first. */
  predicate AreDigits(bytes: seq<Byte>, n: Word) {
    |bytes| == 4 && bytes[0] == n % 0x100 && bytes[1] == n / 0x100 % 0x100
    && bytes[2] == n / 0x1_0000 % 0x100 && bytes[3] == n / 0x100_0000
  }

  /** An entry is the number whose digits its four bytes on the disk are. */
  lemma EntryIsItsBytes(v: Volume, cluster: Word, n: Word)
    requires v.fatStart + 4 * cluster + 4 <= |v.disk|
    requires AreDigits(v.disk[v.fatStart + 4 * cluster..v.fatStart + 4 * cluster + 4], n)
    ensures FatValue(v, cluster) == n
  {
    DigitsMakeNumber(n);
  }

  lemma DigitsMakeNumber(n: Word)
    ensures n % 0x100 + 0x100 * (n / 0x100 % 0x100) + 0x1_0000 * (n / 0x1_0000 % 0x100)
      + 0x100_0000 * (n / 0x100_0000) == n
  {
    var q, r := n / 0x100, n / 0x1_0000;
    assert n == 0x100 * q + n % 0x100 && q == 0x100 * (q / 0x100) + q % 0x100;
    assert q / 0x100 == r && r / 0x100 == n / 0x100_0000;
  }

  /** `get_next_cluster_id` returns eight bits and knows one end-of-chain value. */
  function NextOf(value: Word): Word {
    if value == END_OF_CHAIN then 0 else value % 0x1000_0000 % 256
  }

  /** What the table means: the low 28 bits, and any value from 0x0FFFFFF8 on ends the chain. */
  function SuccessorOf(value: Word): Word {
    var low := value % 0x1000_0000;
    if low >= END_OF_CHAIN then 0 else low
  }

  /** The high four bits of an entry do not count, and the eight highest values of the others end the chain. */
  lemma SuccessorMeans(high: nat, low: nat)
    requires high < 16 && low < 0x1000_0000
    ensures SuccessorOf(0x1000_0000 * high + low) == if low <= 0x0FFF_FFF7 then low else 0
  {
    assert (0x1000_0000 * high + low) % 0x1000_0000 == low;
  }

  /** The entries the code reads as the table means them. */
  predicate EntryFollowed(value: Word) {
    value == END_OF_CHAIN || value % 0x1000_0000 < 256
  }

  /** The code follows the table exactly for the one end marker and for cluster numbers below 256. */
  lemma NextIsSuccessorIff(value: Word)
    ensures NextOf(value) == SuccessorOf(value) <==> EntryFollowed(value)
  {
  }

  /** A file of more than 256 clusters goes wrong: its successor 300 is taken for cluster 44. */
  lemma LargeClusterMissed()
    ensures SuccessorOf(300) == 300 && NextOf(300) == 44
  {
  }

  /** The more common end-of-chain value is taken for cluster 255. */
  lemma OtherEndMarkerMissed()
    ensures SuccessorOf(0x0FFFFFFF) == 0 && NextOf(0x0FFFFFFF) == 255
  {
  }

  /** The volume fits the signed 32-bit positions of the streamer. */
  ghost predicate Geometry(v: Volume) {
    && v.clusterSize > 0
    && |v.disk| < 0x8000_0000 - 512
    && v.dataStart <= |v.disk|
  }

  /** A cluster whose table entry and data are on the disk. */
  ghost predicate OnDisk(v: Volume, cluster: Word) {
    && 2 <= cluster
    && v.fatStart + 4 * cluster + 4 <= |v.disk|
    && ClusterStart(v, cluster) + v.clusterSize <= |v.disk|
  }

  /** What the table means: each cluster's entry names the next one, and the last entry ends the chain. */
  ghost predicate IsChain(v: Volume, chain: seq<Word>) {
    && (forall i :: 0 <= i < |chain| ==> OnDisk(v, chain[i]))
    && forall i :: 0 <= i < |chain| ==> Linked(v, chain, i)
  }

  ghost predicate Linked(v: Volume, chain: seq<Word>, i: nat)
    requires i < |chain| && OnDisk(v, chain[i])
  {
    SuccessorOf(FatValue(v, chain[i])) == ChainAt(chain, i + 1)
  }

  /** The code's successor of cluster `i` of the chain is the next one of the chain. */
  ghost predicate Followed(v: Volume, chain: seq<Word>, i: nat)
    requires i < |chain| && OnDisk(v, chain[i])
  {
    NextOf(FatValue(v, chain[i])) == ChainAt(chain, i + 1)
  }

  ghost predicate Untruncated(v: Volume, chain: seq<Word>, i: nat)
    requires i < |chain| && OnDisk(v, chain[i])
  {
    EntryFollowed(FatValue(v, chain[i]))
  }

  /** Every entry of the chain is one that `get_next_cluster_id` does not truncate. */
  ghost predicate Followable(v: Volume, chain: seq<Word>)
    requires forall i :: 0 <= i < |chain| ==> OnDisk(v, chain[i])
  {
    forall i :: 0 <= i < |chain| ==> Untruncated(v, chain, i)
  }

  /** The code walks the chain that the table means if and only if no entry is truncated. */
  lemma ChainFollowedIff(v: Volume, chain: seq<Word>)
    requires IsChain(v, chain)
    ensures (forall i :: 0 <= i < |chain| ==> Followed(v, chain, i)) <==> Followable(v, chain)
  {
    forall i | 0 <= i < |chain|
      ensures Followed(v, chain, i) <==> Untruncated(v, chain, i)
    {
      assert Linked(v, chain, i);
      NextIsSuccessorIff(FatValue(v, chain[i]));
    }
  }

  /** A chain is determined by its first cluster. */
  lemma ChainIsUnique(v: Volume, a: seq<Word>, b: seq<Word>)
    requires IsChain(v, a) && IsChain(v, b) && a != [] && b != [] && a[0] == b[0]
    ensures a == b
  {
    forall i: nat | i < |a| && i < |b|
      ensures a[i] == b[i]
    {
      ChainsAgree(v, a, b, i);
    }
    ChainsAgree(v, a, b, |a| - 1);
    ChainsAgree(v, b, a, |b| - 1);
  }

  lemma {:induction false} ChainsAgree(v: Volume, a: seq<Word>, b: seq<Word>, i: nat)
    requires IsChain(v, a) && IsChain(v, b) && a != [] && b != [] && a[0] == b[0] && i < |a|
    ensures i < |b| && a[i] == b[i] && ChainAt(a, i + 1) == ChainAt(b, i + 1)
  {
    if i > 0 {
      ChainsAgree(v, a, b, i - 1);
      assert OnDisk(v, a[i]);
    }
    assert Linked(v, a, i) && Linked(v, b, i);
  }

  /** A chain as the table means it; that of an empty file is empty. */
  ghost predicate ValidChain(v: Volume, chain: seq<Word>) {
    Geometry(v) && IsChain(v, chain)
  }

  /** The code reads entry `i` as the table means it if the file goes on behind cluster `i`; only then it matters. */
  ghost predicate FollowedInFile(v: Volume, chain: seq<Word>, fileSize: nat, i: nat)
    requires i < |chain| && OnDisk(v, chain[i])
  {
    Span(v, i + 1) < fileSize ==> Untruncated(v, chain, i)
  }

  /** The chain of a file of that size, which the code can follow to the end of the file. */
  ghost predicate FileChain(v: Volume, chain: seq<Word>, fileSize: nat) {
    && ValidChain(v, chain) && fileSize <= Span(v, |chain|)
    && forall i :: 0 <= i < |chain| ==> FollowedInFile(v, chain, fileSize, i)
  }

  /** The code follows a chain as far as a file of that size goes if and only if no entry up to there is truncated. */
  lemma FileFollowedIff(v: Volume, chain: seq<Word>, fileSize: nat)
    requires ValidChain(v, chain) && fileSize <= Span(v, |chain|)
    ensures FileChain(v, chain, fileSize) <==>
      forall i: nat :: i < |chain| && Span(v, i + 1) < fileSize ==> Followed(v, chain, i)
  {
    forall i: nat | i < |chain|
      ensures FollowedInFile(v, chain, fileSize, i) <==> (Span(v, i + 1) < fileSize ==> Followed(v, chain, i))
    {
      NextInChain(v, chain, i);
    }
  }

  lemma NextInChain(v: Volume, chain: seq<Word>, k: nat)
    requires ValidChain(v, chain) && k < |chain| && OnDisk(v, chain[k])
    ensures NextOf(FatValue(v, chain[k])) == ChainAt(chain, k + 1) <==> Untruncated(v, chain, k)
  {
    assert Linked(v, chain, k);
    NextIsSuccessorIff(FatValue(v, chain[k]));
  }

  /** The cluster at place `k` of a chain; 0 past its end. */
  function ChainAt(chain: seq<Word>, k: nat): Word {
    if k < |chain| then chain[k] else 0
  }

  function ClusterData(v: Volume, cluster: Word): (d: seq<Byte>)
    requires Geometry(v) && OnDisk(v, cluster)
    ensures |d| == v.clusterSize
  {
    ClusterInRange(v, cluster);
    v.disk[ClusterPos(v, cluster)..ClusterPos(v, cluster) + v.clusterSize]
  }

  lemma ClusterInRange(v: Volume, cluster: Word)
    requires Geometry(v) && OnDisk(v, cluster)
    ensures ClusterPos(v, cluster) == ClusterStart(v, cluster)
    ensures ClusterPos(v, cluster) + v.clusterSize <= |v.disk|
  {
  }

  /** The bytes of a chain: its clusters, one after another. */
  function Content(v: Volume, chain: seq<Word>): (c: seq<Byte>)
    requires Geometry(v) && forall i :: 0 <= i < |chain| ==> OnDisk(v, chain[i])
    ensures |c| == Span(v, |chain|)
  {
    if chain == [] then []
    else Content(v, chain[..|chain| - 1]) + ClusterData(v, chain[|chain| - 1])
  }

  lemma {:induction false} ContentOfCluster(v: Volume, chain: seq<Word>, k: nat)
    requires Geometry(v) && (forall i :: 0 <= i < |chain| ==> OnDisk(v, chain[i])) && k < |chain|
    ensures Span(v, k) + v.clusterSize <= |Content(v, chain)|
    ensures Content(v, chain)[Span(v, k)..Span(v, k) + v.clusterSize] == ClusterData(v, chain[k])
  {
    var last := |chain| - 1;
    var before := Content(v, chain[..last]);
    if k < last {
      ContentOfCluster(v, chain[..last], k);
      assert Content(v, chain)[Span(v, k)..Span(v, k) + v.clusterSize]
        == before[Span(v, k)..Span(v, k) + v.clusterSize];
    }
  }

  /** `c` is the content of the chain, said cluster by cluster. */
  ghost predicate IsContent(v: Volume, chain: seq<Word>, c: seq<Byte>)
    requires ValidChain(v, chain)
  {
    && |c| == Span(v, |chain|)
    && forall k: nat :: k < |chain| ==> ClusterOfContent(v, chain, c, k)
  }

  ghost predicate ClusterOfContent(v: Volume, chain: seq<Word>, c: seq<Byte>, k: nat)
    requires Geometry(v) && k < |chain| && OnDisk(v, chain[k])
  {
    Span(v, k) + v.clusterSize <= |c| && c[Span(v, k)..Span(v, k) + v.clusterSize] == ClusterData(v, chain[k])
  }

  lemma ContentIs(v: Volume, chain: seq<Word>)
    requires ValidChain(v, chain)
    ensures IsContent(v, chain, Content(v, chain))
  {
    forall k: nat | k < |chain|
      ensures ClusterOfContent(v, chain, Content(v, chain), k)
    {
      ContentOfCluster(v, chain, k);
    }
  }

  /**
   A disk of 80 bytes with its table at 0 and clusters of 16 bytes from byte 32 on: from the bytes of the
   entries 3 and 4 it follows that a file of 32 bytes at cluster 3 is what the disk has from byte 48 on.
   */
  lemma TwoClusterFile(v: Volume)
    requires v.fatStart == 0 && v.dataStart == 32 && v.clusterSize == 16 && |v.disk| == 80
    requires v.disk[12..16] == [0x04, 0, 0, 0] && v.disk[16..20] == [0xF8, 0xFF, 0xFF, 0x0F]
    ensures ValidChain(v, [3, 4]) && FileChain(v, [3, 4], 32) && Content(v, [3, 4]) == v.disk[48..80]
  {
    EntryIsItsBytes(v, 3, 4);
    EntryIsItsBytes(v, 4, 0x0FFF_FFF8);
    TwoClusterPlaces(v);
    var chain: seq<Word> := [3, 4];
    assert Linked(v, chain, 0) && Linked(v, chain, 1);
    assert FollowedInFile(v, chain, 32, 0) && FollowedInFile(v, chain, 32, 1);
    assert chain[..1] == [3] && chain[..1][..0] == [];
    assert Content(v, [3]) == Content(v, []) + ClusterData(v, 3);
    assert v.disk[48..64] + v.disk[64..80] == v.disk[48..80];
  }

  lemma TwoClusterPlaces(v: Volume)
    requires v.fatStart == 0 && v.dataStart == 32 && v.clusterSize == 16 && |v.disk| == 80
    ensures Geometry(v) && OnDisk(v, 3) && OnDisk(v, 4)
    ensures ClusterData(v, 3) == v.disk[48..64] && ClusterData(v, 4) == v.disk[64..80]
    ensures Span(v, 1) == 16 && Span(v, 2) == 32
  {
    TimesIsProduct(16, 1);
    TimesIsProduct(16, 2);
  }

  lemma SlicesAgree(c: seq<Byte>, q: nat, disk: seq<Byte>, p: nat, size: nat, a: nat, n: nat)
    requires q + size <= |c| && p + size <= |disk| && a + n <= size && c[q..q + size] == disk[p..p + size]
    ensures c[q + a..q + a + n] == disk[p + a..p + a + n]
  {
    var x, y := c[q + a..q + a + n], disk[p + a..p + a + n];
    forall i | 0 <= i < n
      ensures x[i] == y[i]
    {
      assert c[q..q + size][a + i] == disk[p..p + size][a + i];
    }
  }

  /** Part of a cluster, on the disk and in the content. */
  lemma ContentSlice(v: Volume, chain: seq<Word>, c: seq<Byte>, k: nat, a: nat, n: nat)
    requires Geometry(v) && k < |chain| && OnDisk(v, chain[k]) && ClusterOfContent(v, chain, c, k)
    requires a + n <= v.clusterSize
    ensures Span(v, k) + a + n <= |c|
    ensures ClusterPos(v, chain[k]) + a + n <= |v.disk|
    ensures c[Span(v, k) + a..Span(v, k) + a + n]
      == v.disk[ClusterPos(v, chain[k]) + a..ClusterPos(v, chain[k]) + a + n]
  {
    ClusterInRange(v, chain[k]);
    SlicesAgree(c, Span(v, k), v.disk, ClusterPos(v, chain[k]), v.clusterSize, a, n);
  }

  /** An unsigned position, as the `int` the streamer takes. */
  function ToInt(w: Word): int {
    if w < 0x8000_0000 then w else w - 0x1_0000_0000
  }

  class FileHandle {
    var startingCluster: Word
    var fileSize: Word
    var filePos: Word
    var currentCluster: Word
    var positionInCluster: Word

    /** `fat32_open`, once the directory item has been found. */
    constructor (startingCluster: Word, fileSize: Word)
      ensures this.startingCluster == startingCluster && this.fileSize == fileSize
      ensures filePos == 0 && currentCluster == startingCluster && positionInCluster == 0
    {
      this.startingCluster, this.fileSize := startingCluster, fileSize;
      filePos, currentCluster, positionInCluster := 0, startingCluster, 0;
    }

    /**
     The cursor stands `positionInCluster` bytes into cluster `k` of the chain. At the end of the file the
     current cluster is whatever the code took for the successor.
     */
    ghost predicate At(v: Volume, chain: seq<Word>, k: nat)
      reads this
    {
      && FileChain(v, chain, fileSize) && k <= |chain|
      && filePos <= fileSize
      && filePos == Span(v, k) + positionInCluster
      && positionInCluster < v.clusterSize
      && (filePos < fileSize ==> k < |chain| && currentCluster == chain[k])
    }
  }

  class Fat {
    const stream: Stream
    const fatStart: nat
    const dataStart: nat
    const clusterSize: Word

    constructor (stream: Stream, fatStart: nat, dataStart: nat, clusterSize: Word)
      ensures this.stream == stream && this.fatStart == fatStart && this.dataStart == dataStart
      ensures this.clusterSize == clusterSize
    {
      this.stream, this.fatStart, this.dataStart, this.clusterSize := stream, fatStart, dataStart, clusterSize;
    }

    ghost function Vol(): Volume {
      Volume(stream.disk, fatStart, dataStart, clusterSize)
    }

    /** `get_cluster_data_disk_pos`, in 32-bit arithmetic */
    method GetClusterDataDiskPos(cluster: Word) returns (pos: Word)
      ensures pos == ClusterPos(Vol(), cluster)
    {
      ClusterStartIsProduct(Vol(), cluster);
      pos := Wrap(dataStart + (cluster - 2) * clusterSize);
    }

    method GetClusterValue(cluster: Word) returns (value: Word)
      requires Geometry(Vol()) && fatStart + 4 * cluster + 4 <= |stream.disk|
      modifies stream
      ensures value == FatValue(Vol(), cluster)
    {
      var bytes := new Byte[4](_ => 0);
      stream.Seek(fatStart + 4 * cluster);
      var r;
      ghost var part;
      r, part := stream.Read(bytes, 0, 4);
      assert bytes[..] == part;
      DeliveredIsSlice(stream.disk, fatStart + 4 * cluster, part);
      value := Word32(bytes[..]);
    }

    method GetNextClusterId(cluster: Word) returns (next: Word)
      requires Geometry(Vol()) && fatStart + 4 * cluster + 4 <= |stream.disk|
      modifies stream
      ensures next == NextOf(FatValue(Vol(), cluster))
    {
      var value := GetClusterValue(cluster);
      if value == END_OF_CHAIN {
        return 0;
      }
      value := value % 0x1000_0000;
      next := value % 256;
    }

    /**
     `fat32_read_internal`: up to `size` bytes into `out` from index `at`; the result is 1 if all of
     them were there. `content` is what the chain holds, `k` the place of the cursor in the chain and
     `next` the index after the bytes written.
     */
    method ReadInternal(file: FileHandle, size: Word, out: array<Byte>, at: nat,
                        ghost chain: seq<Word>, ghost content: seq<Byte>, ghost k: nat)
      returns (status: int, next: nat, ghost k': nat)
      requires file.At(Vol(), chain, k) && IsContent(Vol(), chain, content) && at + size <= out.Length
      modifies stream, file, out
      ensures file.At(Vol(), chain, k')
      ensures file.fileSize == old(file.fileSize) && file.startingCluster == old(file.startingCluster)
      ensures file.filePos == Min(old(file.filePos) + size, file.fileSize)
      ensures status == if old(file.filePos) + size <= file.fileSize then 1 else 0
      ensures next == at + (file.filePos - old(file.filePos))
      ensures out[..] == Overwrite(old(out[..]), at, content[old(file.filePos)..file.filePos])
    {
      ghost var v := Vol();
      ghost var start := file.filePos;
      ghost var before := out[..];
      var bytesLeftToRead := size;
      k', next := k, at;
      while true
        invariant file.At(v, chain, k') && file.fileSize == old(file.fileSize)
        invariant file.startingCluster == old(file.startingCluster)
        invariant start <= file.filePos && next == at + (file.filePos - start)
        invariant bytesLeftToRead == size - (file.filePos - start) && bytesLeftToRead >= 0
        invariant out[..] == Overwrite(before, at, content[start..file.filePos])
        decreases bytesLeftToRead
      {
        var chunk := Min(Min(clusterSize - file.positionInCluster, file.fileSize - file.filePos), bytesLeftToRead);
        k' := ReadStep(file, chunk, out, next, chain, content, k', before, at, start);
        next := next + chunk;
        bytesLeftToRead := bytesLeftToRead - chunk;
        if bytesLeftToRead == 0 {
          return 1, next, k';
        }
        if file.filePos == file.fileSize {
          return 0, next, k';
        }
        if file.currentCluster == 0 {
          return 0, next, k';
        }
      }
    }

    /**
     `fat32_read`: up to `nmemb` items of `size` bytes; the result counts the complete items. The bytes
     delivered are those of the content from the cursor on, up to the end of the file.
     */
    method Read(file: FileHandle, size: Word, nmemb: Word, out: array<Byte>,
                ghost chain: seq<Word>, ghost content: seq<Byte>, ghost k: nat)
      returns (items: nat, ghost k': nat)
      requires file.At(Vol(), chain, k) && IsContent(Vol(), chain, content) && Times(size, nmemb) <= out.Length
      modifies stream, file, out
      ensures file.At(Vol(), chain, k') && file.fileSize == old(file.fileSize)
      ensures file.filePos == Min(old(file.filePos) + Times(size, nmemb), file.fileSize)
      ensures out[..] == Overwrite(old(out[..]), 0, content[old(file.filePos)..file.filePos])
      ensures items <= nmemb && old(file.filePos) + Times(size, items) <= file.fileSize
      ensures items < nmemb ==> file.fileSize < old(file.filePos) + Times(size, items + 1)
    {
      ghost var start := file.filePos;
      ghost var before := out[..];
      var at := 0;
      items, k' := 0, k;
      var i := 0;
      while i < nmemb
        invariant 0 <= i <= nmemb && items == i && at == Times(size, i) <= Times(size, nmemb)
        invariant file.At(Vol(), chain, k') && file.fileSize == old(file.fileSize)
        invariant file.filePos == start + Times(size, i)
        invariant out[..] == Overwrite(before, 0, content[start..file.filePos])
      {
        ItemFits(size, i, nmemb);
        var status;
        status, at, k' := ReadItem(file, size, out, at, chain, content, k', before, start);
        items := items + status;
        if status == 0 {
          break;
        }
        i := i + 1;
      }
    }

    /** One item: `fat32_read_internal` behind the bytes read since `start`. */
    method ReadItem(file: FileHandle, size: Word, out: array<Byte>, at: nat,
                    ghost chain: seq<Word>, ghost content: seq<Byte>, ghost k: nat,
                    ghost before: seq<Byte>, ghost start: nat)
      returns (status: int, next: nat, ghost k': nat)
      requires file.At(Vol(), chain, k) && IsContent(Vol(), chain, content)
      requires start <= file.filePos && at == file.filePos - start && at + size <= out.Length == |before|
      requires out[..] == Overwrite(before, 0, content[start..file.filePos])
      modifies stream, file, out
      ensures file.At(Vol(), chain, k')
      ensures file.fileSize == old(file.fileSize) && file.startingCluster == old(file.startingCluster)
      ensures file.filePos == Min(old(file.filePos) + size, file.fileSize)
      ensures status == if old(file.filePos) + size <= file.fileSize then 1 else 0
      ensures next == file.filePos - start && file.filePos <= |content|
      ensures out[..] == Overwrite(before, 0, content[start..file.filePos])
    {
      ghost var pos := file.filePos;
      status, next, k' := ReadInternal(file, size, out, at, chain, content, k);
      OverwriteSlices(before, 0, content, start, pos, file.filePos);
    }

    /** One turn of the loop: a chunk is read behind the bytes read since `start`, and the cursor moves. */
    method ReadStep(file: FileHandle, chunk: nat, out: array<Byte>, next: nat,
                    ghost chain: seq<Word>, ghost content: seq<Byte>, ghost k: nat,
                    ghost before: seq<Byte>, ghost at: nat, ghost start: nat)
      returns (ghost k': nat)
      requires file.At(Vol(), chain, k) && IsContent(Vol(), chain, content)
      requires file.positionInCluster + chunk <= clusterSize && file.filePos + chunk <= file.fileSize
      requires start <= file.filePos && next == at + (file.filePos - start) && next + chunk <= out.Length == |before|
      requires out[..] == Overwrite(before, at, content[start..file.filePos])
      modifies stream, file, out
      ensures file.At(Vol(), chain, k') && file.filePos == old(file.filePos) + chunk
      ensures file.fileSize == old(file.fileSize) && file.startingCluster == old(file.startingCluster)
      ensures file.filePos <= |content| && out[..] == Overwrite(before, at, content[start..file.filePos])
    {
      AppendChunk(file, chunk, out, next, chain, content, k, before, at, start);
      k' := Advance(file, chunk, chain, k);
    }

    /** The chunk, behind the bytes read since `start`. */
    method AppendChunk(file: FileHandle, chunk: nat, out: array<Byte>, next: nat,
                       ghost chain: seq<Word>, ghost content: seq<Byte>, ghost k: nat,
                       ghost before: seq<Byte>, ghost at: nat, ghost start: nat)
      requires file.At(Vol(), chain, k) && IsContent(Vol(), chain, content)
      requires file.positionInCluster + chunk <= clusterSize && file.filePos + chunk <= file.fileSize
      requires start <= file.filePos && next == at + (file.filePos - start) && next + chunk <= out.Length == |before|
      requires out[..] == Overwrite(before, at, content[start..file.filePos])
      modifies stream, out
      ensures file.filePos + chunk <= |content|
      ensures out[..] == Overwrite(before, at, content[start..file.filePos + chunk])
    {
      ghost var now := out[..];
      ReadChunk(file, chunk, out, next, chain, content, k);
      Appended(before, now, out[..], at, content, start, file.filePos, file.filePos + chunk);
    }

    /** The seek and the read of one turn of the loop: bytes of the current cluster from the cursor on. */
    method ReadChunk(file: FileHandle, chunk: nat, out: array<Byte>, at: nat,
                     ghost chain: seq<Word>, ghost content: seq<Byte>, ghost k: nat)
      requires file.At(Vol(), chain, k) && IsContent(Vol(), chain, content) && at + chunk <= out.Length
      requires file.positionInCluster + chunk <= clusterSize && file.filePos + chunk <= file.fileSize
      modifies stream, out
      ensures out[..] == Overwrite(old(out[..]), at, content[file.filePos..file.filePos + chunk])
    {
      var clusterDiskPos := GetClusterDataDiskPos(file.currentCluster);
      PositionInRange(file, chunk, chain, k);
      stream.Seek(ToInt(Wrap(clusterDiskPos + file.positionInCluster)));
      var r;
      ghost var part;
      r, part := stream.Read(out, at, chunk);
      ChunkIsContent(file, chunk, chain, content, k, part);
    }

    /** The end of one turn: the cursor moves, and at the end of a cluster follows the chain. */
    method Advance(file: FileHandle, chunk: nat, ghost chain: seq<Word>, ghost k: nat) returns (ghost k': nat)
      requires file.At(Vol(), chain, k)
      requires file.positionInCluster + chunk <= clusterSize && file.filePos + chunk <= file.fileSize
      modifies stream, file
      ensures file.At(Vol(), chain, k')
      ensures file.filePos == old(file.filePos) + chunk
      ensures file.fileSize == old(file.fileSize) && file.startingCluster == old(file.startingCluster)
    {
      PositionInRange(file, chunk, chain, k);
      k' := k;
      file.filePos := file.filePos + chunk;
      file.positionInCluster := file.positionInCluster + chunk;
      if file.positionInCluster == clusterSize {
        file.positionInCluster := 0;
        NextInChain(Vol(), chain, k);
        assert FollowedInFile(Vol(), chain, file.fileSize, k);
        file.currentCluster := GetNextClusterId(file.currentCluster);
        k' := k + 1;
      }
    }

    lemma PositionInRange(file: FileHandle, chunk: nat, chain: seq<Word>, k: nat)
      requires file.At(Vol(), chain, k)
      requires file.positionInCluster + chunk <= clusterSize && file.filePos + chunk <= file.fileSize
      ensures chunk > 0 ==> k < |chain| && file.currentCluster == chain[k] && OnDisk(Vol(), chain[k])
      ensures chunk > 0 ==>
        0 <= ClusterPos(Vol(), file.currentCluster) + file.positionInCluster + chunk < 0x8000_0000
      ensures
        var pos := ClusterPos(Vol(), file.currentCluster) + file.positionInCluster;
        chunk > 0 ==> ToInt(Wrap(pos)) == pos
    {
      if chunk > 0 {
        ClusterInRange(Vol(), chain[k]);
      }
    }

    lemma ChunkIsContent(file: FileHandle, chunk: nat, chain: seq<Word>, content: seq<Byte>, k: nat, part: seq<Byte>)
      requires file.At(Vol(), chain, k) && IsContent(Vol(), chain, content) && |part| == chunk
      requires file.positionInCluster + chunk <= clusterSize && file.filePos + chunk <= file.fileSize
      requires chunk > 0 ==>
        Delivered(stream.disk, ClusterPos(Vol(), file.currentCluster) + file.positionInCluster, part)
      ensures part == content[file.filePos..file.filePos + chunk]
    {
      PositionInRange(file, chunk, chain, k);
      if chunk > 0 {
        assert ClusterOfContent(Vol(), chain, content, k);
        ContentSlice(Vol(), chain, content, k, file.positionInCluster, chunk);
        DeliveredIsSlice(stream.disk, ClusterPos(Vol(), chain[k]) + file.positionInCluster, part);
      }
    }
  }

  lemma {:induction false} ItemFits(size: nat, i: nat, n: nat)
    requires i < n
    ensures Times(size, i + 1) == Times(size, i) + size && Times(size, i + 1) <= Times(size, n)
  {
    if i + 1 < n {
      ItemFits(size, i, n - 1);
    }
  }

  /** Two slices written one behind the other. */
  lemma Appended(before: seq<Byte>, now: seq<Byte>, after: seq<Byte>, at: nat,
      content: seq<Byte>, a: nat, b: nat, c: nat)
    requires a <= b <= c <= |content| && at + (c - a) <= |before|
    requires now == Overwrite(before, at, content[a..b]) && after == Overwrite(now, at + (b - a), content[b..c])
    ensures after == Overwrite(before, at, content[a..c])
  {
    OverwriteSlices(before, at, content, a, b, c);
  }

  lemma OverwriteSlices(out: seq<Byte>, at: nat, content: seq<Byte>, a: nat, b: nat, c: nat)
    requires a <= b <= c <= |content| && at + (c - a) <= |out|
    ensures Overwrite(Overwrite(out, at, content[a..b]), at + (b - a), content[b..c]) ==
      Overwrite(out, at, content[a..c])
  {
    OverwriteTwice(out, at, content[a..b], content[b..c]);
    assert content[a..b] + content[b..c] == content[a..c];
  }
}
