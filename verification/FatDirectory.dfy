/**
 Finding a path in the directory tree of a FAT32 volume (`get_path_directory_item` in `fat32.c`).
 */
module FatDirectory {
  import opened Words
  import opened Streamer
  import opened Fat32
  import opened Names83

  const ITEM_SIZE: nat := 32

  /** A 32-byte directory record. */
  type Item = seq<Byte>

  function NoItem(): Item {
    seq(ITEM_SIZE, _ => 0)
  }

  predicate IsItem(r: Item) {
    |r| == ITEM_SIZE
  }

  /** `get_directory_item_target_cluster_id` */
  function TargetCluster(r: Item): Word
    requires IsItem(r)
  {
    (r[20] as int + 0x100 * r[21] as int) * 0x1_0000 + (r[26] as int + 0x100 * r[27] as int)
  }

  /** `is_directory_item_directory` */
  predicate IsDirectory(r: Item)
    requires IsItem(r)
  {
    r[11] / 16 % 2 == 1
  }

  /** A record leads to the cluster whose digits it holds, the lower two in bytes 26 and 27. */
  lemma TargetIsItsBytes(r: Item, c: Word)
    requires IsItem(r) && AreDigits([r[26], r[27], r[20], r[21]], c)
    ensures TargetCluster(r) == c
  {
    DigitsMakeNumber(c);
  }

  /** The fifth bit of byte 11 marks a directory. */
  lemma DirectoryBit(r: Item, high: nat, bit: nat, low: nat)
    requires IsItem(r) && r[11] == 32 * high + 16 * bit + low && bit < 2 && low < 16
    ensures IsDirectory(r) <==> bit == 1
  {
    assert r[11] / 16 == 2 * high + bit;
  }

  // ---------- The resolver: what a path names ----------

  /** A scan of directory records: a record of that name, the end record, or no more records. */
  datatype Scan = Hit(item: Item) | Stop | More

  function ScanFor(c: seq<Byte>, name: seq<Byte>): (r: Scan)
    ensures r.Hit? ==> IsItem(r.item) && r.item[..11] == name
  {
    if |c| < ITEM_SIZE then More
    else if c[0] == 0 then Stop
    else if c[..11] == name then Hit(c[..ITEM_SIZE])
    else ScanFor(c[ITEM_SIZE..], name)
  }

  /** The record at place `i`. */
  function Record(c: seq<Byte>, i: nat): Item
    requires ITEM_SIZE * i + ITEM_SIZE <= |c|
  {
    c[ITEM_SIZE * i..ITEM_SIZE * i + ITEM_SIZE]
  }

  /** The record at place `i` is the first of that name, and no end record comes before it. */
  ghost predicate FirstOfName(c: seq<Byte>, name: seq<Byte>, i: nat) {
    && ITEM_SIZE * i + ITEM_SIZE <= |c|
    && Record(c, i)[0] != 0 && Record(c, i)[..11] == name
    && forall j: nat :: j < i ==> Record(c, j)[0] != 0 && Record(c, j)[..11] != name
  }

  lemma RecordOfTail(c: seq<Byte>, i: nat)
    requires ITEM_SIZE * (i + 1) + ITEM_SIZE <= |c|
    ensures Record(c[ITEM_SIZE..], i) == Record(c, i + 1)
  {
  }

  /** A scan hits exactly the first record of that name before any end record. */
  lemma {:induction false} ScanHitsFirst(c: seq<Byte>, name: seq<Byte>, i: nat)
    requires FirstOfName(c, name, i)
    ensures ScanFor(c, name) == Hit(Record(c, i))
    decreases i
  {
    assert c[0] == Record(c, 0)[0] && c[..11] == Record(c, 0)[..11];
    if i > 0 {
      var tail := c[ITEM_SIZE..];
      RecordOfTail(c, i - 1);
      forall j: nat | j < i - 1
        ensures Record(tail, j) == Record(c, j + 1)
      {
        RecordOfTail(c, j);
      }
      ScanHitsFirst(tail, name, i - 1);
    }
  }

  lemma {:induction false} HitIsFirst(c: seq<Byte>, name: seq<Byte>) returns (i: nat)
    requires ScanFor(c, name).Hit?
    ensures FirstOfName(c, name, i)
    decreases |c|
  {
    assert c[0] == Record(c, 0)[0] && c[..11] == Record(c, 0)[..11];
    if c[..11] == name {
      i := 0;
    } else {
      var tail := c[ITEM_SIZE..];
      var k := HitIsFirst(tail, name);
      i := k + 1;
      RecordOfTail(c, k);
      forall j: nat | j < i
        ensures Record(c, j)[0] != 0 && Record(c, j)[..11] != name
      {
        if j > 0 {
          RecordOfTail(c, j - 1);
          assert Record(tail, j - 1)[0] != 0;
        }
      }
    }
  }

  /** Where each directory's clusters are: for every first cluster of a directory, its whole chain. */
  type Directories = map<Word, seq<Word>>

  ghost predicate Listed(v: Volume, dirs: Directories, cluster: Word) {
    && cluster in dirs
    && ValidChain(v, dirs[cluster])
    && dirs[cluster] != [] && dirs[cluster][0] == cluster
  }

  /** The search for a name goes past cluster `i` only if it is not decided there; only then its entry matters. */
  ghost predicate FollowedInSearch(v: Volume, chain: seq<Word>, content: seq<Byte>, name: seq<Byte>, i: nat)
    requires i < |chain| && OnDisk(v, chain[i])
  {
    Span(v, i + 1) <= |content| && ScanFor(content[..Span(v, i + 1)], name).More? ==> Untruncated(v, chain, i)
  }

  /** The code can follow the chain as far as the search for the name goes. */
  ghost predicate Searchable(v: Volume, chain: seq<Word>, content: seq<Byte>, name: seq<Byte>) {
    ValidChain(v, chain) && forall i :: 0 <= i < |chain| ==> FollowedInSearch(v, chain, content, name, i)
  }

  /** The directories that the path leads through, from the one at `cluster`, are listed; no others need be. */
  ghost predicate Walkable(v: Volume, dirs: Directories, cluster: Word, path: seq<seq<Byte>>)
    decreases |path|
  {
    path != [] ==>
      && Listed(v, dirs, cluster)
      && Searchable(v, dirs[cluster], Content(v, dirs[cluster]), FatName(path[0]))
      && var found := ScanFor(Content(v, dirs[cluster]), FatName(path[0]));
      |path| > 1 && found.Hit? && IsDirectory(found.item) ==> Walkable(v, dirs, TargetCluster(found.item), path[1..])
  }

  /**
   The item a path names, from the directory at `cluster`: the first record of each part's name
   before the end record, descending only through directories; otherwise an item of zeros.
   */
  ghost function Resolve(v: Volume, dirs: Directories, cluster: Word, path: seq<seq<Byte>>): (r: Item)
    ensures IsItem(r)
    decreases |path|, 1
  {
    if path == [] || !Listed(v, dirs, cluster) then NoItem()
    else ResolveFrom(v, dirs, ScanFor(Content(v, dirs[cluster]), FatName(path[0])), path)
  }

  /** What the scan of the first part's directory leads to. */
  ghost function ResolveFrom(v: Volume, dirs: Directories, found: Scan, path: seq<seq<Byte>>): (r: Item)
    requires path != [] && (found.Hit? ==> IsItem(found.item))
    ensures IsItem(r)
    decreases |path|, 0
  {
    if !found.Hit? then NoItem()
    else if |path| == 1 then found.item
    else if !IsDirectory(found.item) then NoItem()
    else Resolve(v, dirs, TargetCluster(found.item), path[1..])
  }

  predicate AllZero(r: Item) {
    |r| == 32 && forall k :: 0 <= k < 32 ==> r[k] == 0
  }

  /** No record before the end record has the name of the first part: 32 zeros. */
  lemma MissingIsZero(v: Volume, dirs: Directories, cluster: Word, path: seq<seq<Byte>>)
    requires path != [] && Listed(v, dirs, cluster)
    requires forall j: nat :: !FirstOfName(Content(v, dirs[cluster]), FatName(path[0]), j)
    ensures AllZero(Resolve(v, dirs, cluster, path))
  {
    var c, name := Content(v, dirs[cluster]), FatName(path[0]);
    if ScanFor(c, name).Hit? {
      var j := HitIsFirst(c, name);
    }
  }

  /**
   Else it is the first such record, if the path ends there; what the rest of the path resolves to from the
   cluster of that record, if it is a directory; and 32 zeros, if it is none.
   */
  lemma FoundIsFollowed(v: Volume, dirs: Directories, cluster: Word, path: seq<seq<Byte>>, i: nat)
    requires path != [] && Listed(v, dirs, cluster)
    requires FirstOfName(Content(v, dirs[cluster]), FatName(path[0]), i)
    ensures
      var r, found := Content(v, dirs[cluster])[32 * i..32 * i + 32], Resolve(v, dirs, cluster, path);
      if |path| == 1 then found == r
      else if r[11] / 16 % 2 == 1 then found == Resolve(v, dirs, TargetCluster(r), path[1..])
      else AllZero(found)
  {
    ScanHitsFirst(Content(v, dirs[cluster]), FatName(path[0]), i);
  }

  // ---------- An example, in bytes of the disk ----------

  /** "DIR" and "FILE", as the directories have them. */
  const DIR_NAME: seq<Byte> := [68, 73, 82, 32, 32, 32, 32, 32, 32, 32, 32]
  const FILE_NAME: seq<Byte> := [70, 73, 76, 69, 32, 32, 32, 32, 32, 32, 32]

  /**
   A disk of 288 bytes: the table at 0, clusters of two records from byte 32 on, the root directory in cluster 2
   with a directory "DIR" at cluster 5 for its first record, and there a first record "FILE".
   */
  ghost predicate SmallDisk(v: Volume) {
    && v.fatStart == 0 && v.dataStart == 32 && v.clusterSize == 64 && |v.disk| == 288
    && v.disk[8..12] == [0xF8, 0xFF, 0xFF, 0x0F] && v.disk[20..24] == [0xF8, 0xFF, 0xFF, 0x0F]
    && v.disk[32..43] == DIR_NAME && v.disk[43] == 0x10
    && v.disk[52] == 0 && v.disk[53] == 0 && v.disk[58] == 5 && v.disk[59] == 0
    && v.disk[224..235] == FILE_NAME
  }

  /** The path "dir/file" leads to the 32 bytes from 224 on. */
  lemma SmallDiskResolves(v: Volume)
    requires SmallDisk(v)
    ensures
      var dirs: Directories, path: seq<seq<Byte>> := map[2 := [2], 5 := [5]], [[100, 105, 114], [102, 105, 108, 101]];
      Walkable(v, dirs, 2, path) && Resolve(v, dirs, 2, path) == v.disk[224..256]
  {
    var dirs: Directories, path: seq<seq<Byte>> := map[2 := [2], 5 := [5]], [[100, 105, 114], [102, 105, 108, 101]];
    SmallNames();
    SmallClusters(v);
    SmallRecords(v);
    var found := Hit(v.disk[32..64]);
    assert path[1..][0] == [102, 105, 108, 101] && path[1..][1..] == [];
    assert Listed(v, dirs, 2) && Listed(v, dirs, 5);
    assert Searchable(v, [2], Content(v, [2]), DIR_NAME) && Searchable(v, [5], Content(v, [5]), FILE_NAME);
    assert Walkable(v, dirs, 5, path[1..]);
  }

  lemma SmallNames()
    ensures FatName([100, 105, 114]) == DIR_NAME && FatName([102, 105, 108, 101]) == FILE_NAME
  {
    FatNameIs([100, 105, 114], []);
    FatNameIs([102, 105, 108, 101], []);
  }

  lemma SmallClusters(v: Volume)
    requires SmallDisk(v)
    ensures Geometry(v) && OnDisk(v, 2) && OnDisk(v, 5)
    ensures IsChain(v, [2]) && IsChain(v, [5]) && Followable(v, [2]) && Followable(v, [5])
    ensures Content(v, [2]) == v.disk[32..96] && Content(v, [5]) == v.disk[224..288]
  {
    TimesIsProduct(64, 0);
    TimesIsProduct(64, 3);
    EntryIsItsBytes(v, 2, 0x0FFF_FFF8);
    EntryIsItsBytes(v, 5, 0x0FFF_FFF8);
    var root: seq<Word>, sub: seq<Word> := [2], [5];
    assert OnDisk(v, 2) && OnDisk(v, 5);
    assert Linked(v, root, 0) && Linked(v, sub, 0);
    assert root[..0] == [] && sub[..0] == [];
  }

  lemma SmallRecords(v: Volume)
    requires SmallDisk(v)
    ensures ScanFor(v.disk[32..96], DIR_NAME) == Hit(v.disk[32..64])
    ensures ScanFor(v.disk[224..288], FILE_NAME) == Hit(v.disk[224..256])
    ensures IsDirectory(v.disk[32..64]) && TargetCluster(v.disk[32..64]) == 5
  {
    var r := v.disk[32..64];
    assert v.disk[32] == v.disk[32..43][0] && v.disk[224] == v.disk[224..235][0];
    assert v.disk[32..96][..11] == v.disk[32..43] && v.disk[32..96][..32] == r;
    assert v.disk[224..288][..11] == v.disk[224..235] && v.disk[224..288][..32] == v.disk[224..256];
    assert r[11] == 0x10 && r[20] == 0 && r[21] == 0 && r[26] == 5 && r[27] == 0;
    DirectoryBit(r, 0, 1, 0);
    TargetIsItsBytes(r, 5);
  }

  // ---------- Scanning cluster by cluster ----------

  /** Scanning two pieces of a directory one after the other is scanning them together. */
  lemma {:induction false} ScanAppend(a: seq<Byte>, b: seq<Byte>, name: seq<Byte>)
    requires |a| % ITEM_SIZE == 0
    ensures ScanFor(a + b, name) == if ScanFor(a, name).More? then ScanFor(b, name) else ScanFor(a, name)
    decreases |a|
  {
    if |a| < ITEM_SIZE {
      assert a + b == b;
    } else {
      ScanAppend(a[ITEM_SIZE..], b, name);
      assert (a + b)[ITEM_SIZE..] == a[ITEM_SIZE..] + b;
      assert (a + b)[..11] == a[..11] && (a + b)[..ITEM_SIZE] == a[..ITEM_SIZE];
    }
  }

  /** `strncmp` of 11 bytes decides equality with a name that has no zero byte. */
  method SameName(a: seq<Byte>, name: seq<Byte>) returns (same: bool)
    requires |a| == |name| == 11 && 0 !in name
    ensures same <==> a == name
  {
    assert forall j :: 0 <= j < 11 ==> name[j] != 0;
    var i := 0;
    while i < 11
      invariant 0 <= i <= 11 && a[..i] == name[..i]
    {
      if a[i] != name[i] {
        return false;
      }
      if a[i] == 0 {
        return true;
      }
      assert a[..i + 1] == a[..i] + [a[i]] && name[..i + 1] == name[..i] + [name[i]];
      i := i + 1;
    }
    assert a[..11] == a && name[..11] == name;
    same := true;
  }

  lemma {:induction false} PlaceHasNoZero(src: seq<Byte>, dest: seq<Byte>, p: nat, dotSeen: bool)
    requires |dest| == 11 && p <= 11 && 0 !in src && 0 !in dest
    ensures 0 !in Place(src, dest, p, dotSeen)
  {
    if src != [] && p < 11 {
      assert src[0] in src && forall c :: c in src[1..] ==> c in src;
      if src[0] == DOT {
        PlaceHasNoZero(src[1..], dest, if dotSeen then p else 8, true);
      } else {
        PlaceHasNoZero(src[1..], dest[p := Upper(src[0])], p + 1, dotSeen);
      }
    }
  }

  lemma {:induction false} PlaceHasNoDot(src: seq<Byte>, dest: seq<Byte>, p: nat, dotSeen: bool)
    requires |dest| == 11 && p <= 11 && DOT !in dest
    ensures DOT !in Place(src, dest, p, dotSeen)
  {
    if src != [] && p < 11 {
      if src[0] == DOT {
        PlaceHasNoDot(src[1..], dest, if dotSeen then p else 8, true);
      } else {
        PlaceHasNoDot(src[1..], dest[p := Upper(src[0])], p + 1, dotSeen);
      }
    }
  }

  /** The records "." and ".." of a directory are never what a path names. */
  lemma DotRecordsAreNeverHit(c: seq<Byte>, text: seq<Byte>)
    ensures ScanFor(c, FatName(text)).Hit? ==> ScanFor(c, FatName(text)).item[0] != DOT
  {
    PlaceHasNoDot(text, Spaces(11), 0, false);
    var found := ScanFor(c, FatName(text));
    assert found.Hit? ==> found.item[0] == found.item[..11][0] && found.item[..11][0] in FatName(text);
  }

  /** The item depends on the disk only: two lists of the directories on the way give the same one. */
  lemma {:induction false} ResolveIsUnique(v: Volume, dirs: Directories, dirs2: Directories,
      cluster: Word, path: seq<seq<Byte>>)
    requires Walkable(v, dirs, cluster, path) && Walkable(v, dirs2, cluster, path)
    ensures Resolve(v, dirs, cluster, path) == Resolve(v, dirs2, cluster, path)
    decreases |path|
  {
    if path != [] {
      ChainIsUnique(v, dirs[cluster], dirs2[cluster]);
      var found := ScanFor(Content(v, dirs[cluster]), FatName(path[0]));
      if |path| > 1 && found.Hit? && IsDirectory(found.item) {
        ResolveIsUnique(v, dirs, dirs2, TargetCluster(found.item), path[1..]);
      }
    }
  }

  lemma FatNameHasNoZero(text: seq<Byte>)
    requires 0 !in text
    ensures 0 !in FatName(text)
  {
    PlaceHasNoZero(text, Spaces(11), 0, false);
  }

  /** What the record at position `p` decides. */
  lemma ScanStep(c: seq<Byte>, p: nat, name: seq<Byte>)
    requires p + ITEM_SIZE <= |c|
    ensures c[p] == 0 ==> ScanFor(c[p..], name) == Stop
    ensures c[p] != 0 && c[p..p + 11] == name ==> ScanFor(c[p..], name) == Hit(c[p..p + ITEM_SIZE])
    ensures c[p] != 0 && c[p..p + 11] != name ==> ScanFor(c[p..], name) == ScanFor(c[p + ITEM_SIZE..], name)
  {
    var rest := c[p..];
    assert rest[..11] == c[p..p + 11] && rest[..ITEM_SIZE] == c[p..p + ITEM_SIZE];
    assert rest[ITEM_SIZE..] == c[p + ITEM_SIZE..];
  }

  /** One cluster's records from `offset` on, as the innermost loop sees them. */
  method ScanCluster(buf: array<Byte>, size: nat, name: seq<Byte>) returns (itemOffset: nat, found: bool)
    requires buf.Length == size && size % ITEM_SIZE == 0 && |name| == 11 && 0 !in name
    ensures itemOffset <= size && (found ==> itemOffset < size)
    ensures itemOffset + ITEM_SIZE <= size || itemOffset == size
    ensures found ==> ScanFor(buf[..], name) == Hit(buf[itemOffset..itemOffset + ITEM_SIZE])
    ensures !found && itemOffset < size ==> ScanFor(buf[..], name) == Stop
    ensures itemOffset == size ==> ScanFor(buf[..], name) == More
  {
    itemOffset := 0;
    ghost var c := buf[..];
    assert c[0..] == c;
    while itemOffset < size
      invariant 0 <= itemOffset <= size && itemOffset % ITEM_SIZE == 0
      invariant ScanFor(c, name) == ScanFor(c[itemOffset..], name)
    {
      var ended;
      ended, found := ExamineRecord(buf, itemOffset, name);
      if ended || found {
        return;
      }
      itemOffset := itemOffset + ITEM_SIZE;
    }
    found := false;
  }

  /** The record at `p`: the end record, one of the name looked for, or neither. */
  method ExamineRecord(buf: array<Byte>, p: nat, name: seq<Byte>) returns (ended: bool, same: bool)
    requires p + ITEM_SIZE <= buf.Length && |name| == 11 && 0 !in name
    ensures ended ==> !same && ScanFor(buf[..][p..], name) == Stop
    ensures same ==> ScanFor(buf[..][p..], name) == Hit(buf[p..p + ITEM_SIZE])
    ensures !ended && !same ==> ScanFor(buf[..][p..], name) == ScanFor(buf[..][p + ITEM_SIZE..], name)
  {
    ghost var c := buf[..];
    ScanStep(c, p, name);
    assert c[p..p + 11] == buf[p..p + 11] && c[p..p + ITEM_SIZE] == buf[p..p + ITEM_SIZE];
    if buf[p] == 0 {
      return true, false;
    }
    ended := false;
    same := SameName(buf[p..p + 11], name);
  }

  /** The rest of the content from cluster `k` on. */
  lemma ContentTail(v: Volume, chain: seq<Word>, content: seq<Byte>, k: nat)
    requires ValidChain(v, chain) && IsContent(v, chain, content) && k < |chain|
    ensures Span(v, k) + v.clusterSize == Span(v, k + 1) <= |content|
    ensures content[Span(v, k)..] == ClusterData(v, chain[k]) + content[Span(v, k + 1)..]
    ensures content[Span(v, k)..Span(v, k + 1)] == ClusterData(v, chain[k])
  {
    assert ClusterOfContent(v, chain, content, k);
    SplitTail(content, Span(v, k), v.clusterSize);
  }

  lemma SplitTail(c: seq<Byte>, a: nat, n: nat)
    requires a + n <= |c|
    ensures c[a..] == c[a..a + n] + c[a + n..]
  {
  }

  /** Nothing is decided before cluster `k`. */
  ghost predicate Undecided(v: Volume, content: seq<Byte>, name: seq<Byte>, k: nat) {
    && Span(v, k) <= |content| && Span(v, k) % ITEM_SIZE == 0
    && ScanFor(content[..Span(v, k)], name) == More
    && ScanFor(content, name) == ScanFor(content[Span(v, k)..], name)
  }

  lemma UndecidedAtFirst(v: Volume, content: seq<Byte>, name: seq<Byte>)
    ensures Undecided(v, content, name, 0)
  {
    assert content[0..] == content && content[..0] == [];
  }

  /** Nothing is decided in cluster `k` either: then the code goes on to the next one of the chain. */
  lemma UndecidedNext(v: Volume, chain: seq<Word>, content: seq<Byte>, name: seq<Byte>, k: nat)
    requires Undecided(v, content, name, k) && v.clusterSize % ITEM_SIZE == 0 && k < |chain|
    requires Searchable(v, chain, content, name) && Span(v, k) <= Span(v, k + 1) <= |content|
    requires ScanFor(content[Span(v, k)..Span(v, k + 1)], name) == More
    requires ScanFor(content[Span(v, k)..], name) == ScanFor(content[Span(v, k + 1)..], name)
    ensures Undecided(v, content, name, k + 1) && OnDisk(v, chain[k])
    ensures NextOf(FatValue(v, chain[k])) == ChainAt(chain, k + 1)
  {
    ScanPrefix(content, Span(v, k), Span(v, k + 1), name);
    MultipleMore(Span(v, k), v.clusterSize);
    assert OnDisk(v, chain[k]) && FollowedInSearch(v, chain, content, name, k);
    NextInChain(v, chain, k);
  }

  lemma ScanPrefix(c: seq<Byte>, a: nat, b: nat, name: seq<Byte>)
    requires a <= b <= |c| && a % ITEM_SIZE == 0
    requires ScanFor(c[..a], name) == More && ScanFor(c[a..b], name) == More
    ensures ScanFor(c[..b], name) == More
  {
    ScanAppend(c[..a], c[a..b], name);
    assert c[..b] == c[..a] + c[a..b];
  }

  lemma MultipleMore(a: nat, b: nat)
    requires a % ITEM_SIZE == 0 && b % ITEM_SIZE == 0
    ensures (a + b) % ITEM_SIZE == 0
  {
  }

  lemma LastCluster(v: Volume, chain: seq<Word>, k: nat)
    requires ValidChain(v, chain) && k <= |chain| && ChainAt(chain, k) == 0
    ensures k == |chain|
  {
    assert k < |chain| ==> OnDisk(v, chain[k]);
  }

  /** Nothing is decided in the whole content: the name is not there. */
  lemma UndecidedAtEnd(v: Volume, content: seq<Byte>, name: seq<Byte>, k: nat)
    requires Undecided(v, content, name, k) && |content| == Span(v, k)
    ensures ScanFor(content, name) == More
  {
    assert content[..Span(v, k)] == content;
  }

  class Finder {
    const fat: Fat
    const rootCluster: Word
    const buf: array<Byte>

    constructor (fat: Fat, rootCluster: Word, buf: array<Byte>)
      ensures this.fat == fat && this.rootCluster == rootCluster && this.buf == buf
    {
      this.fat, this.rootCluster, this.buf := fat, rootCluster, buf;
    }

    ghost predicate Valid() {
      buf.Length == fat.clusterSize && fat.clusterSize % ITEM_SIZE == 0
    }

    /** Reads one cluster into the buffer. */
    method LoadCluster(cluster: Word)
      requires Valid() && Geometry(fat.Vol()) && OnDisk(fat.Vol(), cluster)
      modifies fat.stream, buf
      ensures buf[..] == ClusterData(fat.Vol(), cluster)
    {
      var pos := fat.GetClusterDataDiskPos(cluster);
      ClusterInRange(fat.Vol(), cluster);
      fat.stream.Seek(pos);
      var r;
      ghost var part;
      r, part := fat.stream.Read(buf, 0, fat.clusterSize);
      DeliveredIsSlice(fat.stream.disk, pos, part);
      assert buf[..] == part;
    }

    /** One cluster of a directory, from its place `k` in the chain: a hit, an early end, or neither. */
    method ScanOneCluster(cluster: Word, name: seq<Byte>,
        ghost chain: seq<Word>, ghost content: seq<Byte>, ghost k: nat)
      returns (found: bool, stopped: bool, item: Item)
      requires Valid() && ValidChain(fat.Vol(), chain) && IsContent(fat.Vol(), chain, content)
      requires k < |chain| && chain[k] == cluster && |name| == 11 && 0 !in name
      modifies fat.stream, buf
      ensures Span(fat.Vol(), k) <= Span(fat.Vol(), k + 1) <= |content|
      ensures found ==> ScanFor(content[Span(fat.Vol(), k)..], name) == Hit(item)
      ensures !found && stopped ==> ScanFor(content[Span(fat.Vol(), k)..], name) == Stop
      ensures !found && !stopped ==>
        ScanFor(content[Span(fat.Vol(), k)..Span(fat.Vol(), k + 1)], name) == More
      ensures !found && !stopped ==>
        ScanFor(content[Span(fat.Vol(), k)..], name) == ScanFor(content[Span(fat.Vol(), k + 1)..], name)
    {
      ghost var v := fat.Vol();
      assert OnDisk(v, chain[k]);
      LoadCluster(cluster);
      ContentTail(v, chain, content, k);
      assert content[Span(v, k)..Span(v, k + 1)] == buf[..];
      ScanAppend(buf[..], content[Span(v, k + 1)..], name);
      var itemOffset;
      itemOffset, found := ScanCluster(buf, fat.clusterSize, name);
      item := if found then buf[itemOffset..itemOffset + ITEM_SIZE] else [];
      stopped := itemOffset < fat.clusterSize;
    }

    /** The loop over the clusters of one directory: what a scan of its whole content finds. */
    method FindInDirectory(cluster: Word, name: seq<Byte>, ghost chain: seq<Word>, ghost content: seq<Byte>)
      returns (found: bool, item: Item)
      requires Valid() && ValidChain(fat.Vol(), chain) && IsContent(fat.Vol(), chain, content)
      requires chain != [] && chain[0] == cluster
      requires |name| == 11 && 0 !in name && Searchable(fat.Vol(), chain, content, name)
      modifies fat.stream, buf
      ensures found <==> ScanFor(content, name).Hit?
      ensures found ==> ScanFor(content, name) == Hit(item)
    {
      ghost var v := fat.Vol();
      var current := cluster;
      found, item := false, [];
      ghost var k: nat := 0;
      UndecidedAtFirst(v, content, name);
      while true
        invariant k < |chain| && current == chain[k] && Undecided(v, content, name, k)
        decreases |chain| - k
      {
        var stopped;
        found, stopped, item := ScanOneCluster(current, name, chain, content, k);
        if found || stopped {
          return;
        }
        UndecidedNext(v, chain, content, name, k);
        current := fat.GetNextClusterId(current);
        k := k + 1;
        if current == 0 {
          LastCluster(v, chain, k);
          UndecidedAtEnd(v, content, name, k);
          return;
        }
      }
    }

    /**
     `get_path_directory_item`: the item that the path names from the root directory, or zeros. Each
     part is a C string; `texts` holds the characters of the parts.
     */
    method GetPathDirectoryItem(parts: seq<seq<Byte>>, target: array<Byte>,
                                ghost texts: seq<seq<Byte>>, ghost dirs: Directories)
      requires Valid() && target.Length == ITEM_SIZE && target != buf
      requires |parts| == |texts| >= 1
      requires forall i :: 0 <= i < |parts| ==> IsCString(parts[i], texts[i]) && |texts[i]| < 256
      requires Walkable(fat.Vol(), dirs, rootCluster, texts)
      modifies fat.stream, buf, target
      ensures target[..] == Resolve(fat.Vol(), dirs, rootCluster, texts)
    {
      Clear(target, ITEM_SIZE);
      assert target[..] == NoItem();
      ghost var v := fat.Vol();
      var current := rootCluster;
      var part := 0;
      assert texts[0..] == texts;
      while true
        invariant 0 <= part < |parts| && target[..] == NoItem()
        invariant Walkable(v, dirs, current, texts[part..])
        invariant Resolve(v, dirs, current, texts[part..]) == Resolve(v, dirs, rootCluster, texts)
        decreases |parts| - part
      {
        ghost var rest := texts[part..];
        assert rest[0] == texts[part] && rest[1..] == texts[part + 1..];
        var name := new Byte[11](_ => 0);
        TransformFilenameToFat(name, parts[part], texts[part]);
        FatNameHasNoZero(texts[part]);
        ContentIs(v, dirs[current]);
        var found, item := FindInDirectory(current, name[..], dirs[current], Content(v, dirs[current]));
        if !found {
          return;
        }
        part := part + 1;
        current := TargetCluster(item);
        if part == |parts| {
          CopyItem(target, item);
          return;
        }
        if !IsDirectory(item) {
          return;
        }
      }
    }
  }

  /** `memcpy` of a whole record. */
  method CopyItem(target: array<Byte>, item: Item)
    requires IsItem(item) && target.Length == ITEM_SIZE
    modifies target
    ensures target[..] == item
  {
    var i := 0;
    while i < ITEM_SIZE
      invariant 0 <= i <= ITEM_SIZE && forall j :: 0 <= j < i ==> target[j] == item[j]
    {
      target[i] := item[i];
      i := i + 1;
    }
  }
}
