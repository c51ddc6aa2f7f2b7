/**
 `strncpy` of the kernel, which copies bytes of memory through the page tables in force, and the
 string it copies.
 */
module CopyString {
  import opened Words
  import opened PageTables
  import opened MemoryBytes

  // ---------- Strings behind a mapping ----------

  function Next(v: Word): Word {
    if v == 0xFFFF_FFFF then 0 else v + 1
  }

  /** The address `i` bytes further on, round the end of the address space. */
  function Plus(v: Word, i: nat): Word {
    if i == 0 then v else Next(Plus(v, i - 1))
  }

  lemma {:induction false} PlusOne(v: Word, i: nat)
    ensures Plus(Next(v), i) == Plus(v, i + 1)
  {
    if i > 0 {
      PlusOne(v, i - 1);
    }
  }

  /** The mapping in force: that of directory `d`, or the kernel's own, which is the identity. */
  type FrameNumber = f: nat | f < FRAMES

  datatype Mapping = Identical | Through(d: FrameNumber)

  function Phys(m: Ram, mp: Mapping, v: Word): Word
  {
    match mp
    case Identical => v
    case Through(d) => Translate(m, d, v)
  }

  /** The string seen at `v`: its bytes up to the first zero, at most `n` of them. */
  function Seen(m: Ram, mp: Mapping, v: Word, n: nat): (t: seq<Byte>)
    ensures |t| <= n
    decreases n
  {
    if n == 0 || GetByte(m, Phys(m, mp, v)) == 0 then []
    else [GetByte(m, Phys(m, mp, v))] + Seen(m, mp, Next(v), n - 1)
  }

  /** Its bytes are those at the successive addresses, none of them zero, and a shorter one ends at a zero. */
  lemma {:induction false} SeenIs(m: Ram, mp: Mapping, v: Word, n: nat, j: nat)
    ensures
      var t := Seen(m, mp, v, n);
      && (j < |t| ==> t[j] == GetByte(m, Phys(m, mp, Plus(v, j))) != 0)
      && (j == |t| < n ==> GetByte(m, Phys(m, mp, Plus(v, j))) == 0)
    decreases n
  {
    if j > 0 && n > 0 {
      SeenIs(m, mp, Next(v), n - 1, j - 1);
      PlusOne(v, j - 1);
    }
  }

  /** Reading that string touches no frame from `lo` to `hi`. */
  predicate Avoids(m: Ram, mp: Mapping, v: Word, n: nat, lo: nat, hi: nat)
    decreases n
  {
    n > 0 ==>
      var x := Phys(m, mp, v);
      !(lo <= Frame(x) <= hi) && (GetByte(m, x) != 0 ==> Avoids(m, mp, Next(v), n - 1, lo, hi))
  }

  /** Memory with the bytes `t` stored from `a` on. */
  function Store(m: Ram, a: nat, t: seq<Byte>): Ram
    requires a + |t| <= 0x1_0000_0000
    decreases |t|
  {
    if t == [] then m else Store(PutByte(m, a, t[0]), a + 1, t[1..])
  }

  /** Exactly those bytes change. */
  lemma {:induction false} StoreBytes(m: Ram, a: nat, t: seq<Byte>, x: Word)
    requires a + |t| <= 0x1_0000_0000
    ensures GetByte(Store(m, a, t), x) == if a <= x < a + |t| then t[x - a] else GetByte(m, x)
    decreases |t|
  {
    if t != [] {
      PutByteAt(m, a, t[0]);
      StoreBytes(PutByte(m, a, t[0]), a + 1, t[1..], x);
    }
  }

  /** Memory `m` and `n` differ only in the frames from `lo` to `hi`. */
  ghost predicate SameOutside(m: Ram, n: Ram, lo: nat, hi: nat) {
    forall f: nat :: f < FRAMES && !(lo <= f <= hi) ==> SameFrame(m, n, f)
  }

  lemma SameOutsideTrans(m: Ram, n: Ram, o: Ram, lo: nat, hi: nat)
    requires SameOutside(m, n, lo, hi) && SameOutside(n, o, lo, hi)
    ensures SameOutside(m, o, lo, hi)
  {
    forall f: nat | f < FRAMES && !(lo <= f <= hi)
      ensures SameFrame(m, o, f)
    {
      assert SameFrame(m, n, f) && SameFrame(n, o, f);
    }
  }

  lemma SameByte(m: Ram, n: Ram, x: Word, lo: nat, hi: nat)
    requires SameOutside(m, n, lo, hi)
    ensures !(lo <= Frame(x) <= hi) ==> GetByte(n, x) == GetByte(m, x)
  {
    if !(lo <= Frame(x) <= hi) {
      SameFrameBytes(m, n, Frame(x), x);
    }
  }

  /** Only the frames the bytes lie in change. */
  lemma {:induction false} StoreFrames(m: Ram, a: nat, t: seq<Byte>, lo: nat, hi: nat)
    requires a + |t| <= 0x1_0000_0000 && PAGE_SIZE * lo <= a && a + |t| <= PAGE_SIZE * (hi + 1)
    ensures SameOutside(m, Store(m, a, t), lo, hi)
    decreases |t|
  {
    if t != [] {
      var n := PutByte(m, a, t[0]);
      PutByteAt(m, a, t[0]);
      StoreFrames(n, a + 1, t[1..], lo, hi);
      SameOutsideTrans(m, n, Store(m, a, t), lo, hi);
    }
  }

  /** No frame of the mapping's page tables lies from `lo` to `hi`. */
  ghost predicate TreeOutside(m: Ram, mp: Mapping, lo: nat, hi: nat) {
    mp.Through? ==>
      && Tree(m, mp.d) && !(lo <= mp.d <= hi)
      && forall i: nat :: i < 1024 ==> !(lo <= TableAt(m, mp.d, i) <= hi)
  }

  lemma SamePhys(m: Ram, n: Ram, mp: Mapping, v: Word, lo: nat, hi: nat)
    requires TreeOutside(m, mp, lo, hi)
    requires SameOutside(m, n, lo, hi)
    ensures Phys(n, mp, v) == Phys(m, mp, v)
  {
    if mp.Through? {
      TreeIsLocal(m, n, mp.d);
    }
  }

  // ---------- strncpy ----------

  /** Memory after copying at most `k` bytes and a zero, each address going through the mapping as it then is. */
  function Copy(m: Ram, mp: Mapping, dest: Word, src: Word, k: nat): Ram
    decreases k
  {
    var b := if k == 0 then 0 else GetByte(m, Phys(m, mp, src));
    var n := PutByte(m, Phys(m, mp, dest), b);
    if b == 0 then n else Copy(n, mp, Next(dest), Next(src), k - 1)
  }

  method ReadByte(ram: array<Word>, mp: Mapping, v: Word) returns (b: Byte)
    requires ram.Length == RAM_WORDS
    ensures b == GetByte(ram[..], Phys(ram[..], mp, v))
  {
    b := GetByte(ram[..], Phys(ram[..], mp, v));
  }

  method WriteByte(ram: array<Word>, mp: Mapping, v: Word, b: Byte)
    requires ram.Length == RAM_WORDS
    modifies ram
    ensures ram[..] == PutByte(old(ram[..]), Phys(old(ram[..]), mp, v), b)
  {
    var a := Phys(ram[..], mp, v);
    FourBytes();
    ram[a / 4] := WithByte(ram[a / 4], a % 4, b, 4);
  }

  /** Nothing is left to copy but the zero. */
  predicate AtEnd(m: Ram, mp: Mapping, src: Word, k: nat)
  {
    k == 0 || GetByte(m, Phys(m, mp, src)) == 0
  }

  lemma CopyEnds(m: Ram, mp: Mapping, dest: Word, src: Word, k: nat)
    requires AtEnd(m, mp, src, k)
    ensures Copy(m, mp, dest, src, k) == PutByte(m, Phys(m, mp, dest), 0)
  {
  }

  lemma CopyGoesOn(m: Ram, mp: Mapping, dest: Word, src: Word, k: nat)
    requires !AtEnd(m, mp, src, k)
    ensures
      var n := PutByte(m, Phys(m, mp, dest), GetByte(m, Phys(m, mp, src)));
      Copy(m, mp, dest, src, k) == Copy(n, mp, Next(dest), Next(src), k - 1)
  {
  }

  /** One round of the loop; false, and nothing is written, at the end of the string. */
  method CopyByte(ram: array<Word>, mp: Mapping, d: Word, s: Word, ghost k: nat, ghost final: Ram) returns (more: bool)
    requires ram.Length == RAM_WORDS && k >= 1
    requires Copy(ram[..], mp, d, s, k) == final
    modifies ram
    ensures !more ==> Copy(ram[..], mp, d, s, k) == final && AtEnd(ram[..], mp, s, k)
    ensures more ==> Copy(ram[..], mp, Next(d), Next(s), k - 1) == final
  {
    var b := ReadByte(ram, mp, s);
    if b == 0 {
      return false;
    }
    WriteByte(ram, mp, d, b);
    more := true;
  }

  /** The loop of `strncpy`; `d` and `s` are the addresses of `dest[i]` and `src[i]`, `k` the bytes left. */
  method CopyBytes(ram: array<Word>, mp: Mapping, dest: Word, src: Word, count: nat, ghost final: Ram)
    returns (d: Word, ghost s': Word, ghost k: nat)
    requires ram.Length == RAM_WORDS && count >= 1
    requires Copy(ram[..], mp, dest, src, count - 1) == final
    modifies ram
    ensures Copy(ram[..], mp, d, s', k) == final && AtEnd(ram[..], mp, s', k)
  {
    var i, s := 0, src;
    d, k := dest, count - 1;
    while i < count - 1
      invariant 0 <= i <= count - 1 && k == count - 1 - i
      invariant Copy(ram[..], mp, d, s, k) == final
    {
      var more := CopyByte(ram, mp, d, s, k, final);
      if !more {
        break;
      }
      i, d, s, k := i + 1, Next(d), Next(s), k - 1;
    }
    s' := s;
  }

  /** The kernel's `strncpy`. */
  method Strncpy(ram: array<Word>, mp: Mapping, dest: Word, src: Word, count: nat)
    requires ram.Length == RAM_WORDS && count >= 1
    modifies ram
    ensures ram[..] == Copy(old(ram[..]), mp, dest, src, count - 1)
  {
    ghost var s, k;
    var end;
    end, s, k := CopyBytes(ram, mp, dest, src, count, Copy(ram[..], mp, dest, src, count - 1));
    CopyEnds(ram[..], mp, end, s, k);
    WriteByte(ram, mp, end, 0);
  }

  /** Byte `i` of the buffer at `dest` is byte `i` of physical memory from `a` on. */
  ghost predicate MapsTo(m: Ram, mp: Mapping, dest: Word, i: nat, a: nat)
  {
    Phys(m, mp, Plus(dest, i)) == a + i
  }

  /** `dest` is a buffer of `count` bytes at physical address `a` in frames `lo` to `hi`, apart from page tables. */
  ghost predicate Buffer(m: Ram, mp: Mapping, dest: Word, count: nat, a: nat, lo: nat, hi: nat) {
    && a + count <= 0x1_0000_0000 && PAGE_SIZE * lo <= a && a + count <= PAGE_SIZE * (hi + 1)
    && (forall i: nat :: i < count ==> MapsTo(m, mp, dest, i, a))
    && TreeOutside(m, mp, lo, hi)
  }

  /** A change of the frames `lo` to `hi` moves neither the buffer nor a string that avoids them. */
  lemma BufferKept(m: Ram, n: Ram, mp: Mapping, dest: Word, count: nat, a: nat, lo: nat, hi: nat)
    requires Buffer(m, mp, dest, count, a, lo, hi) && SameOutside(m, n, lo, hi)
    ensures Buffer(n, mp, dest, count, a, lo, hi)
  {
    if mp.Through? {
      TreeIsLocal(m, n, mp.d);
    }
    forall i: nat | i < count
      ensures MapsTo(n, mp, dest, i, a)
    {
      assert MapsTo(m, mp, dest, i, a);
      SamePhys(m, n, mp, Plus(dest, i), lo, hi);
    }
  }

  lemma {:induction false} SeenKept(m: Ram, n: Ram, mp: Mapping, v: Word, k: nat, lo: nat, hi: nat)
    requires TreeOutside(m, mp, lo, hi) && SameOutside(m, n, lo, hi)
    requires Avoids(m, mp, v, k, lo, hi)
    ensures Seen(n, mp, v, k) == Seen(m, mp, v, k) && Avoids(n, mp, v, k, lo, hi)
    decreases k
  {
    if k > 0 {
      SamePhys(m, n, mp, v, lo, hi);
      SameByte(m, n, Phys(m, mp, v), lo, hi);
      if GetByte(m, Phys(m, mp, v)) != 0 {
        SeenKept(m, n, mp, Next(v), k - 1, lo, hi);
      }
    }
  }

  /** The rest of a buffer is a buffer. */
  lemma BufferTail(m: Ram, mp: Mapping, dest: Word, count: nat, a: nat, lo: nat, hi: nat)
    requires Buffer(m, mp, dest, count, a, lo, hi) && count >= 1
    ensures Phys(m, mp, dest) == a
    ensures count >= 2 ==> Buffer(m, mp, Next(dest), count - 1, a + 1, lo, hi)
  {
    assert MapsTo(m, mp, dest, 0, a);
    var d, b := Next(dest), a + 1;
    forall i: nat | i < count - 1
      ensures MapsTo(m, mp, d, i, b)
    {
      PlusOne(dest, i);
      assert MapsTo(m, mp, dest, i + 1, a);
    }
  }

  /** One byte stored: what the rest of the copy meets. */
  lemma AfterOne(m: Ram, mp: Mapping, dest: Word, src: Word, k: nat, a: nat, b: Byte, lo: nat, hi: nat)
    requires Buffer(m, mp, dest, k + 1, a, lo, hi) && k >= 1 && Avoids(m, mp, src, k - 1, lo, hi)
    ensures
      var n := PutByte(m, a, b);
      && Buffer(n, mp, Next(dest), k, a + 1, lo, hi) && Avoids(n, mp, src, k - 1, lo, hi)
      && Seen(n, mp, src, k - 1) == Seen(m, mp, src, k - 1)
  {
    var n := PutByte(m, a, b);
    OutsideByte(m, a, b, lo, hi);
    BufferTail(m, mp, dest, k + 1, a, lo, hi);
    BufferKept(m, n, mp, Next(dest), k, a + 1, lo, hi);
    SeenKept(m, n, mp, src, k - 1, lo, hi);
  }

  lemma OutsideByte(m: Ram, a: Word, b: Byte, lo: nat, hi: nat)
    requires PAGE_SIZE * lo <= a < PAGE_SIZE * (hi + 1)
    ensures SameOutside(m, PutByte(m, a, b), lo, hi)
  {
    PutByteAt(m, a, b);
  }

  lemma StoreFirst(m: Ram, a: nat, b: Byte, t: seq<Byte>)
    requires a + |t| + 2 <= 0x1_0000_0000
    ensures Store(m, a, [b] + t + [0]) == Store(PutByte(m, a, b), a + 1, t + [0])
  {
    assert ([b] + t + [0])[1..] == t + [0];
  }

  lemma StoreZero(m: Ram, a: nat)
    requires a + 1 <= 0x1_0000_0000
    ensures Store(m, a, [] + [0]) == PutByte(m, a, 0)
  {
    assert [] + [0] == [0];
  }

  lemma {:induction false} SeenStarts(m: Ram, mp: Mapping, v: Word, k: nat)
    ensures AtEnd(m, mp, v, k) ==> Seen(m, mp, v, k) == []
    ensures !AtEnd(m, mp, v, k) ==>
      Seen(m, mp, v, k) == [GetByte(m, Phys(m, mp, v))] + Seen(m, mp, Next(v), k - 1)
  {
  }

  lemma AvoidsTail(m: Ram, mp: Mapping, v: Word, k: nat, lo: nat, hi: nat)
    requires Avoids(m, mp, v, k, lo, hi) && !AtEnd(m, mp, v, k)
    ensures Avoids(m, mp, Next(v), k - 1, lo, hi)
  {
  }

  lemma RestAfterOne(m: Ram, mp: Mapping, dest: Word, src: Word, k: nat, a: nat, b: Byte, lo: nat, hi: nat)
    requires Buffer(m, mp, dest, k + 1, a, lo, hi) && Avoids(m, mp, src, k, lo, hi) && !AtEnd(m, mp, src, k)
    ensures a + k + 1 <= 0x1_0000_0000
    ensures
      var n := PutByte(m, a, b);
      && Buffer(n, mp, Next(dest), k, a + 1, lo, hi) && Avoids(n, mp, Next(src), k - 1, lo, hi)
      && Seen(n, mp, Next(src), k - 1) == Seen(m, mp, Next(src), k - 1)
  {
    AvoidsTail(m, mp, src, k, lo, hi);
    AfterOne(m, mp, dest, Next(src), k, a, b, lo, hi);
  }

  lemma CopyStoresEnd(m: Ram, mp: Mapping, dest: Word, src: Word, k: nat, a: nat)
    requires AtEnd(m, mp, src, k) && Phys(m, mp, dest) == a
    ensures Copy(m, mp, dest, src, k) == Store(m, a, Seen(m, mp, src, k) + [0])
  {
    CopyEnds(m, mp, dest, src, k);
    SeenStarts(m, mp, src, k);
    StoreZero(m, a);
  }

  lemma CopyStoresMore(m: Ram, mp: Mapping, dest: Word, src: Word, k: nat, a: nat, b: Byte, t: seq<Byte>)
    requires !AtEnd(m, mp, src, k) && Phys(m, mp, dest) == a && a + |t| + 2 <= 0x1_0000_0000
    requires b == GetByte(m, Phys(m, mp, src)) && t == Seen(m, mp, Next(src), k - 1)
    requires Copy(PutByte(m, a, b), mp, Next(dest), Next(src), k - 1) == Store(PutByte(m, a, b), a + 1, t + [0])
    ensures |Seen(m, mp, src, k)| == |t| + 1
    ensures Copy(m, mp, dest, src, k) == Store(m, a, Seen(m, mp, src, k) + [0])
  {
    SeenStarts(m, mp, src, k);
    CopyGoesOn(m, mp, dest, src, k);
    StoreFirst(m, a, b, t);
  }

  /** What is copied is the string seen at the source, and a zero. */
  lemma {:induction false} CopyStores(m: Ram, mp: Mapping, dest: Word, src: Word, k: nat, a: nat, lo: nat, hi: nat)
    requires Buffer(m, mp, dest, k + 1, a, lo, hi) && Avoids(m, mp, src, k, lo, hi)
    ensures Copy(m, mp, dest, src, k) == Store(m, a, Seen(m, mp, src, k) + [0])
    decreases k
  {
    BufferTail(m, mp, dest, k + 1, a, lo, hi);
    if AtEnd(m, mp, src, k) {
      CopyStoresEnd(m, mp, dest, src, k, a);
    } else {
      var b := GetByte(m, Phys(m, mp, src));
      RestAfterOne(m, mp, dest, src, k, a, b, lo, hi);
      CopyStores(PutByte(m, a, b), mp, Next(dest), Next(src), k - 1, a + 1, lo, hi);
      CopyStoresMore(m, mp, dest, src, k, a, b, Seen(m, mp, Next(src), k - 1));
    }
  }
}
