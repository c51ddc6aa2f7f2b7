/**
 Cutting a path such as "0:/dir/file" into a drive number and a list of parts (`pparser.c`). Every
 node and every part name is an allocation of its own on the kernel heap.
 */
module PathParser {
  import opened Words
  import opened HeapTable
  import opened PageTables
  import opened KernelHeap
  import opened AddressSpaces
  import opened Strtok
  import Release = SpaceRelease

  const MAX_PATH: nat := 108
  const SLASH: Byte := 0x2F
  const COLON: Byte := 0x3A
  const NODE_SIZE := 8

  // ---------- What a path means ----------

  /** The characters before the first slash. */
  function Part(t: Text): (r: Text)
    ensures |r| <= |t|
  {
    if t == [] || t[0] == SLASH then [] else [t[0]] + Part(t[1..])
  }

  /** What follows the first part and its slash. */
  function Behind(t: Text): Text {
    if |Part(t)| < |t| then t[|Part(t)| + 1..] else []
  }

  /** The parts of a path up to the first empty one. */
  function Parts(t: Text): seq<Text>
    decreases |t|
  {
    if Part(t) == [] then [] else [Part(t)] + Parts(Behind(t))
  }

  /** A drive digit, a colon and a slash, and at most 108 characters in all. */
  predicate ValidPath(t: Text) {
    3 <= |t| <= MAX_PATH && 48 <= t[0] <= 57 && t[1] == COLON && t[2] == SLASH
  }

  /** The parts joined by slashes. */
  function Join(parts: seq<Text>): Text {
    if parts == [] then []
    else if |parts| == 1 then parts[0]
    else parts[0] + [SLASH] + Join(parts[1..])
  }

  function Print(drive: nat, parts: seq<Text>): Text
    requires drive < 10
  {
    [48 + drive, COLON, SLASH] + Join(parts)
  }

  lemma {:induction false} PartIs(t: Text, n: nat)
    requires n <= |t| && (forall i :: 0 <= i < n ==> t[i] != SLASH) && (n < |t| ==> t[n] == SLASH)
    ensures Part(t) == t[..n]
  {
    if n > 0 {
      PartIs(t[1..], n - 1);
      assert t[..n] == [t[0]] + t[1..][..n - 1];
    }
  }

  /** "0:/bin/a" is drive 0 and the parts "bin" and "a". */
  lemma ParseExample()
    ensures
      var t: Text := [48, 58, 47, 98, 105, 110, 47, 97];
      ValidPath(t) && Parts(t[3..]) == [[98, 105, 110], [97]]
  {
    var t: Text, parts: seq<Text> := [48, 58, 47, 98, 105, 110, 47, 97], [[98, 105, 110], [97]];
    assert parts[1..] == [[97]];
    assert Join(parts) == [98, 105, 110] + [47] + [97] == t[3..];
    PartsOfJoin(parts);
  }

  predicate PlainParts(parts: seq<Text>) {
    forall i :: 0 <= i < |parts| ==> parts[i] != [] && SLASH !in parts[i]
  }

  lemma FirstOfText(w: Text, rest: Text, ends: bool)
    requires SLASH !in w && (ends ==> rest == [])
    ensures var t := if ends then w else w + [SLASH] + rest; Part(t) == w && Behind(t) == rest
  {
    var t := if ends then w else w + [SLASH] + rest;
    assert forall i :: 0 <= i < |w| ==> w[i] in w;
    PartIs(t, |w|);
    assert t[..|w|] == w;
    assert !ends ==> t[|w| + 1..] == rest;
  }

  /** Parsing the printed form of non-empty slash-free parts gives them back. */
  lemma {:induction false} PartsOfJoin(parts: seq<Text>)
    requires PlainParts(parts)
    ensures Parts(Join(parts)) == parts
  {
    if |parts| == 1 {
      FirstOfText(parts[0], [], true);
      assert Parts([]) == [];
    } else if |parts| > 1 {
      PartsOfJoin(parts[1..]);
      FirstOfText(parts[0], Join(parts[1..]), false);
    }
  }

  /** The round trip: drive and parts of a printed path, as long as it fits. */
  lemma PrintThenParse(drive: nat, parts: seq<Text>)
    requires drive < 10 && PlainParts(parts) && |Print(drive, parts)| <= MAX_PATH
    ensures ValidPath(Print(drive, parts))
    ensures Print(drive, parts)[0] - 48 == drive && Parts(Print(drive, parts)[3..]) == parts
  {
    assert Print(drive, parts)[3..] == Join(parts);
    PartsOfJoin(parts);
  }

  /** The joined parts begin the text, and stop at its end, at a final slash or at the first empty part. */
  predicate Begins(parts: seq<Text>, t: Text) {
    var n := |Join(parts)|;
    && Join(parts) <= t
    && (n < |t| ==> t[n] == SLASH)
    && (parts != [] && n + 1 < |t| ==> t[n + 1] == SLASH)
  }

  /** In general the parts are non-empty and slash-free, and are those the text begins with. */
  lemma {:induction false} PartsArePrefix(t: Text)
    ensures PlainParts(Parts(t)) && Begins(Parts(t), t)
    decreases |t|
  {
    PartIsPlain(t);
    var w, rest := Part(t), Behind(t);
    if w != [] {
      PartsArePrefix(rest);
      FirstPartOf(t);
      if Parts(rest) != [] {
        BeginsMore(t, w, rest, Parts(rest));
      } else {
        BeginsOnce(t, w, rest);
      }
    }
  }

  lemma BeginsMore(t: Text, w: Text, rest: Text, parts: seq<Text>)
    requires |w| < |t| && w == t[..|w|] && t[|w|] == SLASH && rest == t[|w| + 1..]
    requires parts != [] && Begins(parts, rest)
    ensures Begins([w] + parts, t)
  {
    JoinInText(t, w, rest, Join(parts));
    assert ([w] + parts)[1..] == parts;
  }

  lemma BeginsOnce(t: Text, w: Text, rest: Text)
    requires w == Part(t) && w != [] && rest == Behind(t) && w == t[..|w|] && Begins([], rest)
    requires |w| < |t| ==> t[|w|] == SLASH
    ensures Begins([w], t)
  {
    assert |w| + 1 < |t| ==> t[|w| + 1] == rest[0];
  }

  lemma JoinInText(t: Text, w: Text, rest: Text, j: Text)
    requires |w| < |t| && w == t[..|w|] && t[|w|] == SLASH && rest == t[|w| + 1..] && j <= rest
    ensures var k := w + [SLASH] + j;
      && k <= t && |t| - |k| == |rest| - |j|
      && (|k| < |t| ==> t[|k|] == rest[|j|])
      && (|k| + 1 < |t| ==> t[|k| + 1] == rest[|j| + 1])
  {
  }

  lemma {:induction false} PartIsPlain(t: Text)
    ensures SLASH !in Part(t) && Part(t) == t[..|Part(t)|]
    ensures |Part(t)| < |t| ==> t[|Part(t)|] == SLASH
  {
    if t != [] && t[0] != SLASH {
      PartIsPlain(t[1..]);
    }
  }

  // ---------- The parser's nodes ----------

  class PathPart {
    const addr: Word
    const partAddr: Word
    const part: array<Byte>
    var next: PathPart?

    constructor (addr: Word, partAddr: Word, part: array<Byte>)
      ensures this.addr == addr && this.partAddr == partAddr && this.part == part && next == null
    {
      this.addr, this.partAddr, this.part := addr, partAddr, part;
      next := null;
    }
  }

  class PathRoot {
    const addr: Word
    const driveNo: int
    var first: PathPart?

    constructor (addr: Word, driveNo: int)
      ensures this.addr == addr && this.driveNo == driveNo && first == null
    {
      this.addr, this.driveNo := addr, driveNo;
      first := null;
    }
  }

  /** The frames of the allocations behind a list: a buffer and a node for each part. */
  function FramesOf(list: seq<PathPart>): seq<nat> {
    if list == [] then [] else [Frame(list[0].partAddr), Frame(list[0].addr)] + FramesOf(list[1..])
  }

  /**
   Giving back the blocks of `fs` one after the other turns table `s` into `s0`: all of them are
   different, taken now and free in `s0`.
   */
  ghost predicate Held(base: nat, s0: Table, s: Table, fs: seq<nat>)
    decreases |fs|
  {
    if fs == [] then s == s0
    else
      && base <= fs[0] < base + |s| && s[fs[0] - base] == SINGLE
      && Held(base, s0, s[fs[0] - base := FREE], fs[1..])
  }

  lemma {:induction false} HeldMeans(base: nat, s0: Table, s: Table, fs: seq<nat>)
    requires Held(base, s0, s, fs)
    ensures |s| == |s0|
    ensures forall f :: f in fs ==> base <= f < base + |s| && s[f - base] == SINGLE && s0[f - base] == FREE
    ensures forall j, k :: 0 <= j < k < |fs| ==> fs[j] != fs[k]
    ensures forall b: nat :: b < |s| && base + b !in fs ==> s[b] == s0[b]
    decreases |fs|
  {
    if fs != [] {
      var f, rest := fs[0], fs[1..];
      var n := s[f - base := FREE];
      HeldMeans(base, s0, n, rest);
      assert f !in rest && n[f - base] == s0[f - base];
      forall h | h in fs
        ensures base <= h < base + |s| && s[h - base] == SINGLE && s0[h - base] == FREE
      {
        assert h == f || h in rest;
      }
      forall b: nat | b < |s| && base + b !in fs
        ensures s[b] == s0[b]
      {
        assert base + b !in rest && b != f - base;
      }
    }
  }

  /** One more block taken. */
  lemma {:induction false} HeldOneMore(base: nat, s0: Table, s: Table, fs: seq<nat>, f: nat)
    requires Held(base, s0, s, fs) && base <= f < base + |s| && s[f - base] == FREE
    ensures Held(base, s0, s[f - base := SINGLE], fs + [f])
    decreases |fs|
  {
    var t := s[f - base := SINGLE];
    if fs == [] {
      assert t[f - base := FREE] == s;
    } else {
      var h := fs[0];
      HeldOneMore(base, s0, s[h - base := FREE], fs[1..], f);
      assert t[h - base := FREE] == s[h - base := FREE][f - base := SINGLE];
      assert (fs + [f])[1..] == fs[1..] + [f];
    }
  }

  /** The parts linked from `first`, in order, are `list`. */
  ghost predicate IsPath(first: PathPart?, list: seq<PathPart>)
    reads list
  {
    && Chain(list)
    && if list == [] then first == null else first == list[0] && list[|list| - 1].next == null
  }

  /** Each part but the last links to the next. */
  ghost predicate Chain(list: seq<PathPart>)
    reads list
  {
    && (forall i, j :: 0 <= i < j < |list| ==> list[i] != list[j])
    && forall i, j :: 0 <= i < j == i + 1 < |list| ==> list[i].next == list[j]
  }

  /** The text `w`, in a zero-terminated buffer of 108 bytes. */
  ghost predicate NameIs(part: array<Byte>, w: Text)
    reads part
  {
    part.Length == MAX_PATH && TextAt(part[..], 0, w)
  }

  /** Part `i` of the list is the `i`-th text. */
  ghost predicate Names(list: seq<PathPart>, parts: seq<Text>)
    reads set p | p in list :: p.part
  {
    && |list| == |parts|
    && forall i :: 0 <= i < |list| ==> NameIs(list[i].part, parts[i])
  }

  // ---------- Parsing ----------

  /** The buffer of one part. */
  datatype PartString = NullString | PartString(addr: Word, buf: array<Byte>)

  /** The loop of `pathparser_get_path_part`: copies the characters before the next slash. */
  method CopyPart(path: seq<Byte>, from: nat, buf: array<Byte>, ghost t: Text) returns (n: nat)
    requires TextAt(path, from, t) && |t| < MAX_PATH == buf.Length
    requires forall j :: 0 <= j < buf.Length ==> buf[j] == 0
    modifies buf
    ensures n == |Part(t)| && TextAt(buf[..], 0, Part(t))
    ensures n < |t| ==> path[from + n] == SLASH
    ensures n == |t| ==> path[from + n] == 0
  {
    n := 0;
    assert t != [] ==> path[from + 0] == t[0];
    while path[from + n] != SLASH && path[from + n] != 0
      invariant 0 <= n <= |t|
      invariant if n < |t| then path[from + n] == t[n] != 0 else path[from + n] == 0
      invariant forall j :: 0 <= j < n ==> t[j] != SLASH
      invariant forall j :: 0 <= j < MAX_PATH ==> buf[j] == if j < n then t[j] else 0
      decreases |t| - n
    {
      buf[n] := path[from + n];
      n := n + 1;
      assert n < |t| ==> path[from + n] == t[n];
    }
    PartIs(t, n);
  }

  /** A single block taken and given back leaves the table as it was. */
  lemma TakeAndFree(base: nat, s: Table, t: Table, f: nat)
    requires TookFrame(base, s, t, f)
    ensures MarkFree(t, f - base) == s
  {
    Release.FreeSingle(t, f - base);
  }

  /** After the first part and the slash behind it. */
  lemma BehindAt(path: seq<Byte>, from: nat, t: Text, n: nat)
    requires TextAt(path, from, t) && n == |Part(t)|
    requires n < |t| ==> path[from + n] == SLASH
    requires n == |t| ==> path[from + n] == 0
    ensures TextAt(path, if path[from + n] == SLASH then from + n + 1 else from + n, Behind(t))
  {
    if n < |t| {
      assert Behind(t) == t[n + 1..];
      TextTail(path, from, t, n + 1);
    } else {
      assert Behind(t) == [] == t[n..];
      TextTail(path, from, t, n);
    }
  }

  /** The part of `pathparser_get_path_part` that moves along the path: to the slash and past it. */
  method ReadPart(path: seq<Byte>, from: nat, buf: array<Byte>, ghost t: Text) returns (n: nat, pos: nat)
    requires TextAt(path, from, t) && |t| < MAX_PATH == buf.Length
    requires forall j :: 0 <= j < buf.Length ==> buf[j] == 0
    modifies buf
    ensures n == |Part(t)| && TextAt(buf[..], 0, Part(t)) && TextAt(path, pos, Behind(t))
  {
    n := CopyPart(path, from, buf, t);
    BehindAt(path, from, t, n);
    pos := from + n;
    if path[pos] == SLASH {
      pos := pos + 1;
    }
  }

  /** `pathparser_get_path_part`: the buffer of the next part, or null (and no allocation) if it is empty. */
  method GetPathPart(mem: Memory, path: seq<Byte>, from: nat, ghost t: Text) returns (part: PartString, pos: nat)
    requires mem.Valid() && WellFormed(mem.Blocks()) && FreeCount(mem.Blocks()) >= 1
    requires TextAt(path, from, t) && |t| < MAX_PATH
    modifies mem.heap.entries, mem.ram
    ensures mem.Valid() && TextAt(path, pos, Behind(t))
    ensures Part(t) == [] ==> part == NullString && mem.Blocks() == old(mem.Blocks())
    ensures Part(t) != [] ==>
      && part.PartString? && fresh(part.buf) && NameIs(part.buf, Part(t))
      && TookFrame(mem.Base(), old(mem.Blocks()), mem.Blocks(), Frame(part.addr))
  {
    ghost var s := mem.Blocks();
    var addr := KZallocFrame(mem, MAX_PATH);
    var buf := new Byte[MAX_PATH](_ => 0);
    var n;
    n, pos := ReadPart(path, from, buf, t);
    if n == 0 {
      TakeAndFree(mem.Base(), s, mem.Blocks(), Frame(addr));
      mem.KFree(addr);
      return NullString, pos;
    }
    part := PartString(addr, buf);
  }

  /** Linking a new last part, with the two blocks it took. */
  lemma {:induction false} FramesOfPlus(list: seq<PathPart>, p: PathPart)
    ensures FramesOf(list + [p]) == FramesOf(list) + [Frame(p.partAddr), Frame(p.addr)]
  {
    if list == [] {
      assert [p][1..] == [];
    } else {
      FramesOfPlus(list[1..], p);
      assert (list + [p])[1..] == list[1..] + [p];
    }
  }

  /** Table `u` is table `s` after the two allocations of one part. */
  ghost predicate TookPart(base: nat, s: Table, u: Table, part: PathPart) {
    && base <= Frame(part.partAddr) < base + |s|
    && TookFrame(base, s, s[Frame(part.partAddr) - base := SINGLE], Frame(part.partAddr))
    && TookFrame(base, s[Frame(part.partAddr) - base := SINGLE], u, Frame(part.addr))
  }

  lemma TookBoth(base: nat, s: Table, n: Table, u: Table, part: PathPart)
    requires TookFrame(base, s, n, Frame(part.partAddr)) && TookFrame(base, n, u, Frame(part.addr))
    ensures TookPart(base, s, u, part)
  {
  }

  /** `pathparser_parse_path_part`: the node of the next part, linked behind `last`; null if the part is empty. */
  method ParsePathPart(mem: Memory, last: PathPart?, path: seq<Byte>, from: nat, ghost t: Text)
    returns (part: PathPart?, pos: nat)
    requires mem.Valid() && WellFormed(mem.Blocks()) && FreeCount(mem.Blocks()) >= BlocksNeeded(t)
    requires TextAt(path, from, t) && |t| < MAX_PATH
    modifies mem.heap.entries, mem.ram, if last == null then {} else {last}
    ensures mem.Valid() && TextAt(path, pos, Behind(t))
    ensures Part(t) == [] ==>
      part == null && mem.Blocks() == old(mem.Blocks()) && (last != null ==> last.next == old(last.next))
    ensures Part(t) != [] ==>
      && part != null && fresh(part) && fresh(part.part) && part.next == null && (last != null ==> last.next == part)
      && NameIs(part.part, Part(t))
      && TookPart(mem.Base(), old(mem.Blocks()), mem.Blocks(), part)
  {
    ghost var s := mem.Blocks();
    var str;
    str, pos := GetPathPart(mem, path, from, t);
    if str == NullString {
      return null, pos;
    }
    ghost var n := mem.Blocks();
    var addr := KZallocFrame(mem, NODE_SIZE);
    part := new PathPart(addr, str.addr, str.buf);
    TookBoth(mem.Base(), s, n, mem.Blocks(), part);
    if last != null {
      last.next := part;
    }
  }

  // ---------- Whole paths ----------

  /** The blocks the parser takes for what is left of a path, with the one it takes before it sees the end. */
  function BlocksNeeded(t: Text): nat {
    2 * |Parts(t)| + 1
  }

  /** `pathparser_path_valid_format` */
  method ValidFormat(path: seq<Byte>, ghost t: Text) returns (valid: bool)
    requires TextAt(path, 0, t)
    ensures valid <==> |t| >= 3 && 48 <= t[0] <= 57 && t[1] == COLON && t[2] == SLASH
  {
    var len := StrNLen(path, MAX_PATH, t);
    assert forall i :: 0 <= i < |t| ==> path[0 + i] == t[i];
    valid := len >= 3 && 48 <= path[0] <= 57 && path[1] == COLON && path[2] == SLASH;
  }

  /** `strnlen` */
  method StrNLen(path: seq<Byte>, max: nat, ghost t: Text) returns (n: nat)
    requires TextAt(path, 0, t)
    ensures n == Min(max, |t|)
  {
    n := 0;
    while n < max
      invariant 0 <= n <= max && n <= |t|
    {
      assert n < |t| ==> path[0 + n] == t[n];
      if path[n] == 0 {
        break;
      }
      n := n + 1;
    }
  }

  /** `strlen` */
  method StrLen(path: seq<Byte>, ghost t: Text) returns (n: nat)
    requires TextAt(path, 0, t)
    ensures n == |t|
  {
    n := 0;
    assert t != [] ==> path[0 + 0] == t[0];
    while path[n] != 0
      invariant 0 <= n <= |t|
      invariant if n < |t| then path[n] == t[n] != 0 else path[n] == 0
      decreases |t| - n
    {
      n := n + 1;
      assert n < |t| ==> path[0 + n] == t[n];
    }
  }

  /** A parsed path: the list holds the given parts, each taking two blocks, and the root one. */
  ghost predicate Parsed(base: nat, s0: Table, s: Table, root: PathRoot, list: seq<PathPart>, parts: seq<Text>)
    reads root, list, set p | p in list :: p.part
  {
    && Linked(root.first, list, parts)
    && Held(base, s0, s, FramesOf(list) + [Frame(root.addr)])
  }

  /** Table `s` holds the blocks of the parts in `list` beyond those of `s0`, with enough left for `u`. */
  ghost predicate Room(base: nat, s0: Table, s: Table, list: seq<PathPart>, u: Text) {
    Held(base, s0, s, FramesOf(list)) && WellFormed(s) && FreeCount(s) >= BlocksNeeded(u)
  }

  lemma RoomAfterRoot(base: nat, s0: Table, s: Table, d: nat, u: Text)
    requires TookFrame(base, s0, s, d) && FreeCount(s0) >= BlocksNeeded(u) + 1
    ensures Room(base, s, s, [], u)
  {
  }

  lemma HeldPair(base: nat, s0: Table, s: Table, n: Table, list: seq<PathPart>, part: PathPart)
    requires Held(base, s0, s, FramesOf(list)) && TookPart(base, s, n, part)
    ensures Held(base, s0, n, FramesOf(list + [part]))
  {
    var f, g := Frame(part.partAddr), Frame(part.addr);
    HeldOneMore(base, s0, s, FramesOf(list), f);
    HeldOneMore(base, s0, s[f - base := SINGLE], FramesOf(list) + [f], g);
    FramesOfPlus(list, part);
    assert FramesOf(list) + [f] + [g] == FramesOf(list + [part]);
  }

  lemma RoomForNext(base: nat, s0: Table, s: Table, n: Table, list: seq<PathPart>, u: Text, part: PathPart)
    requires Room(base, s0, s, list, u) && Part(u) != [] && TookPart(base, s, n, part)
    ensures Room(base, s0, n, list + [part], Behind(u))
  {
    HeldPair(base, s0, s, n, list, part);
  }

  /** The names are kept apart from the memory the allocator works on. */
  ghost predicate Apart(mem: Memory, list: seq<PathPart>)
    reads mem.heap
  {
    forall p :: p in list ==> p.part as object != mem.ram && p.part as object != mem.heap.entries
  }

  /** The path linked from `first`: its nodes and their names. */
  ghost predicate Linked(first: PathPart?, list: seq<PathPart>, parts: seq<Text>)
    reads list, set p | p in list :: p.part
  {
    IsPath(first, list) && Names(list, parts)
  }

  /** A list whose last part has been linked to a new one. */
  lemma LinkedMore(first: PathPart?, list: seq<PathPart>, parts: seq<Text>, part: PathPart, w: Text)
    requires list != [] && first == list[0] && Chain(list) && Names(list, parts)
    requires part !in list && list[|list| - 1].next == part && part.next == null && NameIs(part.part, w)
    ensures Linked(first, list + [part], parts + [w])
  {
  }

  /** Links one more part behind the last of `list`. */
  method LinkPart(mem: Memory, first: PathPart, last: PathPart, path: seq<Byte>, from: nat, ghost u: Text,
      ghost list: seq<PathPart>, ghost parts: seq<Text>)
    returns (part: PathPart?, pos: nat)
    requires mem.Valid() && WellFormed(mem.Blocks()) && FreeCount(mem.Blocks()) >= BlocksNeeded(u)
    requires TextAt(path, from, u) && |u| < MAX_PATH
    requires list != [] && last == list[|list| - 1] && Linked(first, list, parts) && Apart(mem, list)
    modifies mem.heap.entries, mem.ram, last
    ensures mem.Valid() && TextAt(path, pos, Behind(u))
    ensures part == null ==> Part(u) == [] && mem.Blocks() == old(mem.Blocks()) && Linked(first, list, parts)
    ensures part != null ==>
      && fresh(part) && fresh(part.part) && Part(u) != []
      && Linked(first, list + [part], parts + [Part(u)])
      && TookPart(mem.Base(), old(mem.Blocks()), mem.Blocks(), part)
  {
    part, pos := ParsePathPart(mem, last, path, from, u);
    assert Chain(list) && Names(list, parts);
    if part != null {
      LinkedMore(first, list, parts, part, Part(u));
    }
  }

  lemma PartsAlong(t: Text, parts: seq<Text>, u: Text)
    requires Parts(t) == parts + Parts(u) && Part(u) != []
    ensures Parts(t) == parts + [Part(u)] + Parts(Behind(u))
    ensures |Behind(u)| < |u|
  {
    FirstPartOf(u);
    var w, rest := [Part(u)], Parts(Behind(u));
    assert parts + (w + rest) == parts + w + rest;
  }

  lemma FirstPartOf(u: Text)
    requires Part(u) != []
    ensures Parts(u) == [Part(u)] + Parts(Behind(u)) && |Behind(u)| < |u|
  {
  }

  /** How far the parser has come: the nodes linked, their names, and the text that is left. */
  datatype Progress = Progress(list: seq<PathPart>, parts: seq<Text>, rest: Text)

  ghost predicate Going(mem: Memory, s0: Table, t: Text, first: PathPart, part: PathPart?, g: Progress)
    reads mem, mem.heap, mem.heap.entries, g.list, set p | p in g.list :: p.part
  {
    && g.list != [] && Linked(first, g.list, g.parts) && Apart(mem, g.list)
    && Parts(t) == g.parts + Parts(g.rest)
    && if part == null then
         Part(g.rest) == [] && Held(mem.Base(), s0, mem.Blocks(), FramesOf(g.list))
       else
         part == g.list[|g.list| - 1] && |g.rest| < MAX_PATH && Room(mem.Base(), s0, mem.Blocks(), g.list, g.rest)
  }

  /** One round of the loop over the parts. */
  method NextPart(mem: Memory, first: PathPart, last: PathPart, path: seq<Byte>, from: nat,
      ghost s0: Table, ghost t: Text, ghost g: Progress)
    returns (part: PathPart?, pos: nat, ghost n: Progress)
    requires mem.Valid() && TextAt(path, from, g.rest) && Going(mem, s0, t, first, last, g)
    modifies mem.heap.entries, mem.ram, last
    ensures mem.Valid() && Going(mem, s0, t, first, part, n)
    ensures part == null ==> n == g
    ensures part != null ==>
      fresh(part) && n.list == g.list + [part] && TextAt(path, pos, n.rest) && |n.rest| < |g.rest|
  {
    ghost var s := mem.Blocks();
    part, pos := LinkPart(mem, first, last, path, from, g.rest, g.list, g.parts);
    n := g;
    if part != null {
      RoomForNext(mem.Base(), s0, s, mem.Blocks(), g.list, g.rest, part);
      PartsAlong(t, g.parts, g.rest);
      n := Progress(g.list + [part], g.parts + [Part(g.rest)], Behind(g.rest));
    }
  }

  lemma RoomForFirst(base: nat, s0: Table, s: Table, n: Table, u: Text, part: PathPart)
    requires Room(base, s0, s, [], u) && Part(u) != [] && TookPart(base, s, n, part)
    ensures Room(base, s0, n, [part], Behind(u))
  {
    RoomForNext(base, s0, s, n, [], u, part);
    assert [] + [part] == [part];
  }

  /** The first part of the path, linked from the root. */
  method FirstPart(mem: Memory, root: PathRoot, path: seq<Byte>, from: nat, ghost t: Text, ghost s0: Table)
    returns (first: PathPart?, pos: nat)
    requires mem.Valid() && TextAt(path, from, t) && |t| < MAX_PATH && root.first == null
    requires Room(mem.Base(), s0, mem.Blocks(), [], t)
    modifies mem.heap.entries, mem.ram, root
    ensures mem.Valid() && TextAt(path, pos, Behind(t)) && root.first == first
    ensures first == null ==> Part(t) == [] && mem.Blocks() == old(mem.Blocks())
    ensures first != null ==>
      && fresh(first) && fresh(first.part) && Part(t) != []
      && Linked(first, [first], [Part(t)])
      && Room(mem.Base(), s0, mem.Blocks(), [first], Behind(t))
  {
    ghost var s := mem.Blocks();
    first, pos := ParsePathPart(mem, null, path, from, t);
    if first != null {
      root.first := first;
      RoomForFirst(mem.Base(), s0, s, mem.Blocks(), t, first);
    }
  }

  /** The part of `pathparser_parse` behind the creation of the root. */
  method ParseParts(mem: Memory, root: PathRoot, path: seq<Byte>, from: nat, ghost t: Text, ghost s0: Table)
    returns (ghost list: seq<PathPart>)
    requires mem.Valid() && TextAt(path, from, t) && |t| < MAX_PATH && root.first == null
    requires Room(mem.Base(), s0, mem.Blocks(), [], t)
    modifies mem.heap.entries, mem.ram, root
    ensures mem.Valid()
    ensures Linked(root.first, list, Parts(t)) && Held(mem.Base(), s0, mem.Blocks(), FramesOf(list))
  {
    ghost var base := mem.Base();
    var first, pos := FirstPart(mem, root, path, from, t, s0);
    if first == null {
      return [];
    }
    ghost var g := Progress([first], [Part(t)], Behind(t));
    var part: PathPart? := first;
    while part != null
      invariant mem.Valid() && mem.Base() == base && root.first == first
      invariant Going(mem, s0, t, first, part, g)
      invariant part != null ==> fresh(part) && TextAt(path, pos, g.rest)
      decreases if part == null then 0 else |g.rest| + 1
    {
      part, pos, g := NextPart(mem, first, part, path, pos, s0, t, g);
    }
    Arrived(mem, s0, t, first, g);
    list := g.list;
  }

  /** With no next part the whole text is parsed. */
  lemma Arrived(mem: Memory, s0: Table, t: Text, first: PathPart, g: Progress)
    requires Going(mem, s0, t, first, null, g)
    ensures Linked(first, g.list, Parts(t)) && Held(mem.Base(), s0, mem.Blocks(), FramesOf(g.list))
  {
    assert g.parts + [] == g.parts;
  }

  /** The blocks held beyond a table which itself holds one more. */
  lemma {:induction false} HeldBelow(base: nat, s0: Table, s1: Table, s: Table, fs: seq<nat>, d: nat)
    requires Held(base, s1, s, fs) && base <= d < base + |s0| && s0[d - base] == FREE && s1 == s0[d - base := SINGLE]
    ensures Held(base, s0, s, fs + [d])
    decreases |fs|
  {
    if fs == [] {
      assert s1[d - base := FREE] == s0;
    } else {
      HeldBelow(base, s0, s1, s[fs[0] - base := FREE], fs[1..], d);
      assert (fs + [d])[1..] == fs[1..] + [d];
    }
  }

  lemma HeldWithRoot(base: nat, s0: Table, s1: Table, s: Table, fs: seq<nat>, d: nat)
    requires TookFrame(base, s0, s1, d) && Held(base, s1, s, fs)
    ensures Held(base, s0, s, fs + [d])
  {
    HeldBelow(base, s0, s1, s, fs, d);
  }

  /** The checks `pathparser_parse` begins with. */
  method Accepts(path: seq<Byte>, ghost t: Text) returns (accepted: bool)
    requires TextAt(path, 0, t)
    ensures accepted <==> ValidPath(t)
  {
    var len := StrLen(path, t);
    if len > MAX_PATH {
      return false;
    }
    accepted := ValidFormat(path, t);
  }

  /** The rest of `pathparser_parse`, for a path it accepts. */
  method BuildPath(mem: Memory, path: seq<Byte>, ghost t: Text) returns (root: PathRoot, ghost list: seq<PathPart>)
    requires mem.Valid() && WellFormed(mem.Blocks())
    requires TextAt(path, 0, t) && ValidPath(t) && FreeCount(mem.Blocks()) >= BlocksNeeded(t[3..]) + 1
    modifies mem.heap.entries, mem.ram
    ensures mem.Valid() && fresh(root) && root.driveNo == t[0] - 48
    ensures Parsed(mem.Base(), old(mem.Blocks()), mem.Blocks(), root, list, Parts(t[3..]))
  {
    AfterDrive(path, t);
    ghost var s0 := mem.Blocks();
    root := CreateRoot(mem, path[0] - 48);
    ghost var s, u := mem.Blocks(), t[3..];
    RoomAfterRoot(mem.Base(), s0, s, Frame(root.addr), u);
    list := ParseParts(mem, root, path, 3, u, s);
    HeldWithRoot(mem.Base(), s0, s, mem.Blocks(), FramesOf(list), Frame(root.addr));
  }

  /** `pathparser_create_root` */
  method CreateRoot(mem: Memory, driveNo: int) returns (root: PathRoot)
    requires mem.Valid() && WellFormed(mem.Blocks()) && FreeCount(mem.Blocks()) >= 1
    modifies mem.heap.entries, mem.ram
    ensures mem.Valid() && fresh(root) && root.driveNo == driveNo && root.first == null
    ensures TookFrame(mem.Base(), old(mem.Blocks()), mem.Blocks(), Frame(root.addr))
  {
    var addr := KZallocFrame(mem, NODE_SIZE);
    root := new PathRoot(addr, driveNo);
  }

  lemma AfterDrive(path: seq<Byte>, t: Text)
    requires TextAt(path, 0, t) && ValidPath(t)
    ensures path[0] == t[0] && TextAt(path, 3, t[3..])
  {
    assert path[0 + 0] == t[0];
    TextTail(path, 0, t, 3);
  }

  /** `pathparser_parse`; `list` names the nodes it links. */
  method Parse(mem: Memory, path: seq<Byte>, ghost t: Text) returns (root: PathRoot?, ghost list: seq<PathPart>)
    requires mem.Valid() && WellFormed(mem.Blocks()) && TextAt(path, 0, t)
    requires ValidPath(t) ==> FreeCount(mem.Blocks()) >= BlocksNeeded(t[3..]) + 1
    modifies mem.heap.entries, mem.ram
    ensures mem.Valid()
    ensures root != null <==> 3 <= |t| <= 108 && 48 <= t[0] <= 57 && t[1] == 0x3A && t[2] == 0x2F
    ensures root == null ==> mem.Blocks() == old(mem.Blocks())
    ensures root != null ==>
      && fresh(root) && root.driveNo == t[0] - 48
      && Parsed(mem.Base(), old(mem.Blocks()), mem.Blocks(), root, list, Parts(t[3..]))
  {
    var accepted := Accepts(path, t);
    if !accepted {
      return null, [];
    }
    root, list := BuildPath(mem, path, t);
  }

  // ---------- Freeing a path ----------

  /** Giving back the first of the blocks still held. */
  lemma FreeFirst(base: nat, s0: Table, s: Table, f: nat, fs: seq<nat>)
    requires Held(base, s0, s, [f] + fs)
    ensures base <= f && Held(base, s0, MarkFree(s, f - base), fs)
  {
    assert ([f] + fs)[1..] == fs;
    Release.FreeSingle(s, f - base);
  }

  /** Giving back the two blocks of the first part. */
  lemma FreePair(base: nat, s0: Table, s: Table, list: seq<PathPart>, fs: seq<nat>)
    requires list != [] && Held(base, s0, s, FramesOf(list) + fs)
    ensures base <= Frame(list[0].partAddr) && base <= Frame(list[0].addr)
    ensures
      var n := MarkFree(s, Frame(list[0].partAddr) - base);
      Held(base, s0, MarkFree(n, Frame(list[0].addr) - base), FramesOf(list[1..]) + fs)
  {
    var f, g, rest := Frame(list[0].partAddr), Frame(list[0].addr), FramesOf(list[1..]) + fs;
    assert FramesOf(list) + fs == [f] + ([g] + rest);
    FreeFirst(base, s0, s, f, [g] + rest);
    FreeFirst(base, s0, MarkFree(s, f - base), g, rest);
  }

  lemma PathTail(first: PathPart?, list: seq<PathPart>)
    requires IsPath(first, list) && first != null
    ensures IsPath(first.next, list[1..])
  {
  }

  /** The loop body of `pathparser_free`. */
  method FreePart(mem: Memory, part: PathPart, ghost list: seq<PathPart>, ghost fs: seq<nat>, ghost s0: Table)
    requires mem.Valid() && list != [] && part == list[0]
    requires Held(mem.Base(), s0, mem.Blocks(), FramesOf(list) + fs)
    modifies mem.heap.entries
    ensures mem.Valid() && Held(mem.Base(), s0, mem.Blocks(), FramesOf(list[1..]) + fs)
  {
    FreePair(mem.Base(), s0, mem.Blocks(), list, fs);
    mem.KFree(part.partAddr);
    mem.KFree(part.addr);
  }

  /** `pathparser_free`, for a path of the nodes in `list`: every block goes back. */
  method PathparserFree(mem: Memory, root: PathRoot, ghost list: seq<PathPart>, ghost s0: Table)
    requires mem.Valid() && IsPath(root.first, list)
    requires Held(mem.Base(), s0, mem.Blocks(), FramesOf(list) + [Frame(root.addr)])
    modifies mem.heap.entries
    ensures mem.Valid() && mem.Blocks() == s0
  {
    ghost var base, d := mem.Base(), Frame(root.addr);
    var part := root.first;
    ghost var rest := list;
    while part != null
      invariant mem.Valid() && mem.Base() == base && IsPath(part, rest)
      invariant Held(base, s0, mem.Blocks(), FramesOf(rest) + [d])
      decreases |rest|
    {
      PathTail(part, rest);
      var nextPart := part.next;
      FreePart(mem, part, rest, [d], s0);
      part, rest := nextPart, rest[1..];
    }
    assert FramesOf(rest) + [d] == [d] + [];
    FreeFirst(base, s0, mem.Blocks(), d, []);
    mem.KFree(root.addr);
  }

  /** Parsing any path and freeing the result leaves the block table exactly as it was. */
  method ParseThenFree(mem: Memory, path: seq<Byte>, ghost t: Text) returns (drive: int)
    requires mem.Valid() && WellFormed(mem.Blocks()) && TextAt(path, 0, t)
    requires ValidPath(t) ==> FreeCount(mem.Blocks()) >= BlocksNeeded(t[3..]) + 1
    modifies mem.heap.entries, mem.ram
    ensures mem.Valid() && mem.Blocks() == old(mem.Blocks())
    ensures drive == if ValidPath(t) then t[0] - 48 else -1
  {
    ghost var s0 := mem.Blocks();
    drive := -1;
    var root, list := Parse(mem, path, t);
    if root != null {
      drive := root.driveNo;
      PathparserFree(mem, root, list, s0);
    }
  }
}
