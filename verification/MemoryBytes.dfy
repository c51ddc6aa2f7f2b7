/**
 The bytes of physical memory, low-order byte of each word first, and the C strings found in them.
 */
module MemoryBytes {
  import opened Words
  import opened PageTables

  function ByteOf(w: nat, k: nat): Byte {
    if k == 0 then w % 0x100 else ByteOf(w / 0x100, k - 1)
  }

  /** The word with its byte `k` replaced; `k` is one of its `n` bytes. */
  function WithByte(w: nat, k: nat, b: Byte, n: nat): (r: nat)
    requires k < n && w < Power256(n)
    ensures r < Power256(n)
    decreases k
  {
    if k == 0 then w - w % 0x100 + b else 0x100 * WithByte(w / 0x100, k - 1, b, n - 1) + w % 0x100
  }

  function Power256(n: nat): nat {
    if n == 0 then 1 else 0x100 * Power256(n - 1)
  }

  lemma {:induction false} ByteOfWithByte(w: nat, k: nat, b: Byte, n: nat, j: nat)
    requires k < n && w < Power256(n)
    ensures ByteOf(WithByte(w, k, b, n), j) == if j == k then b else ByteOf(w, j)
    decreases k
  {
    var r := WithByte(w, k, b, n);
    if k == 0 {
      assert r % 0x100 == b && r / 0x100 == w / 0x100;
    } else {
      assert r % 0x100 == w % 0x100 && r / 0x100 == WithByte(w / 0x100, k - 1, b, n - 1);
      if j > 0 {
        ByteOfWithByte(w / 0x100, k - 1, b, n - 1, j - 1);
      }
    }
  }

  lemma FourBytes()
    ensures Power256(4) == 0x1_0000_0000
  {
  }

  function GetByte(m: Ram, a: Word): Byte {
    ByteOf(m[a / 4], a % 4)
  }

  function PutByte(m: Ram, a: Word, b: Byte): Ram {
    FourBytes();
    m[a / 4 := WithByte(m[a / 4], a % 4, b, 4)]
  }

  /** The bytes of a word, the low-order one at the lowest address. */
  lemma WordIsBytes(m: Ram, a: Word)
    requires a % 4 == 0
    ensures m[a / 4] == GetByte(m, a) + 0x100 * GetByte(m, a + 1) + 0x1_0000 * GetByte(m, a + 2)
      + 0x100_0000 * GetByte(m, a + 3)
  {
    DigitsOfWord(m[a / 4]);
  }

  lemma DigitsOfWord(w: Word)
    ensures w == ByteOf(w, 0) + 0x100 * ByteOf(w, 1) + 0x1_0000 * ByteOf(w, 2) + 0x100_0000 * ByteOf(w, 3)
  {
    var q := w / 0x100;
    LowBytes(w, q);
    assert ByteOf(w, 2) == ByteOf(q, 1);
    assert ByteOf(w, 3) == ByteOf(q, 2) == ByteOf(q / 0x100, 1);
    LowBytes(q / 0x100, q / 0x1_0000);
  }

  /** Two bytes, and what is left of the number. */
  lemma LowBytes(w: nat, q: nat)
    requires q == w / 0x100
    ensures ByteOf(w, 0) == w % 0x100 && ByteOf(w, 1) == q % 0x100 && w == w % 0x100 + 0x100 * q
  {
  }

  /** A byte written is the byte read back; every other byte and every other frame is as it was. */
  lemma PutByteAt(m: Ram, a: Word, b: Byte)
    ensures forall x: Word :: GetByte(PutByte(m, a, b), x) == if x == a then b else GetByte(m, x)
    ensures forall f: nat :: f < FRAMES && f != Frame(a) ==> SameFrame(m, PutByte(m, a, b), f)
  {
    forall x: Word
      ensures GetByte(PutByte(m, a, b), x) == if x == a then b else GetByte(m, x)
    {
      FourBytes();
      ByteOfWithByte(m[a / 4], a % 4, b, 4, x % 4);
    }
  }

  /** The bytes of an unchanged frame are unchanged. */
  lemma SameFrameBytes(m: Ram, n: Ram, f: nat, x: Word)
    requires f < FRAMES && SameFrame(m, n, f)
    ensures Frame(x) == f ==> GetByte(n, x) == GetByte(m, x)
  {
    assert Frame(x) == f ==> At(n, f, x / 4 % 1024) == At(m, f, x / 4 % 1024);
  }
}
