/**
 32-bit machine words, modelled as integers with the wrap-around written out, and the
 bitwise operators the paging code applies to page-table entries.
 */
module Words {

  type Word = x: int | 0 <= x < 0x1_0000_0000

  type Byte = x: int | 0 <= x < 256

  /** The error code of a refused argument. */
  const EINVARG := 2

  /** Unsigned 32-bit arithmetic keeps the low 32 bits of the exact result. */
  function Wrap(x: int): Word {
    x % 0x1_0000_0000
  }

  function Min(a: int, b: int): int {
    if a < b then a else b
  }

  /** Bitwise `|`, bit by bit. */
  function Or(a: nat, b: nat): nat
    decreases a + b
  {
    if a == 0 && b == 0 then 0
    else 2 * Or(a / 2, b / 2) + if a % 2 == 1 || b % 2 == 1 then 1 else 0
  }

  /** Bitwise `&`, bit by bit. */
  function And(a: nat, b: nat): nat {
    if a == 0 || b == 0 then 0
    else 2 * And(a / 2, b / 2) + if a % 2 == 1 && b % 2 == 1 then 1 else 0
  }

  function Pow2(k: nat): nat {
    if k == 0 then 1 else 2 * Pow2(k - 1)
  }

  /** `q` followed by `k` zero bits. */
  function Shift(q: nat, k: nat): nat {
    if k == 0 then q else 2 * Shift(q, k - 1)
  }

  const PAGE_MASK: nat := 0xFFFFF000

  lemma {:induction false} OrZero(a: nat)
    ensures Or(a, 0) == a && Or(0, a) == a
  {
    if a != 0 {
      OrZero(a / 2);
    }
  }

  /** Or-ing into the low `k` bits leaves the bits above them alone. */
  lemma {:induction false} OrLowBits(k: nat, q: nat, b: nat, c: nat)
    requires b < Pow2(k) && c < Pow2(k)
    ensures Or(b, c) < Pow2(k)
    ensures Or(Shift(q, k) + b, c) == Shift(q, k) + Or(b, c)
  {
    if k == 0 {
      OrZero(q);
    } else {
      OrLowBits(k - 1, q, b / 2, c / 2);
      assert (Shift(q, k) + b) / 2 == Shift(q, k - 1) + b / 2;
      assert (Shift(q, k) + b) % 2 == b % 2;
      OrHalves(b, c);
      OrHalves(Shift(q, k) + b, c);
    }
  }

  lemma OrHalves(a: nat, b: nat)
    ensures Or(a, b) == 2 * Or(a / 2, b / 2) + if a % 2 == 1 || b % 2 == 1 then 1 else 0
  {
  }

  /** Masking with `m` shifted left by `k` clears the low `k` bits and masks the rest with `m`. */
  lemma {:induction false} AndHighBits(k: nat, m: nat, q: nat, r: nat)
    requires r < Pow2(k)
    ensures And(Shift(q, k) + r, Shift(m, k)) == Shift(And(q, m), k)
  {
    if k > 0 {
      AndHighBits(k - 1, m, q, r / 2);
      assert (Shift(q, k) + r) / 2 == Shift(q, k - 1) + r / 2;
      AndHalves(Shift(q, k) + r, Shift(m, k));
    }
  }

  lemma AndHalves(a: nat, b: nat)
    ensures And(a, b) == 2 * And(a / 2, b / 2) + if a % 2 == 1 && b % 2 == 1 then 1 else 0
  {
  }

  /** A value of at most `n` bits is unchanged by a mask of `n` ones. */
  lemma {:induction false} AndOnes(n: nat, q: nat)
    requires q < Pow2(n)
    ensures And(q, Pow2(n) - 1) == q
  {
    if n > 0 {
      AndOnes(n - 1, q / 2);
      AndHalves(q, Pow2(n) - 1);
    }
  }

  lemma {:induction false} ShiftIsMultiply(q: nat, k: nat)
    ensures Shift(q, k) == Pow2(k) * q
  {
    if k > 0 {
      ShiftIsMultiply(q, k - 1);
    }
  }

  /** `x & 0xFFFFF000` is the start of the page that `x` points into. */
  lemma MaskIsPageStart(x: Word)
    ensures And(x, PAGE_MASK) == x - x % 4096
  {
    assert Pow2(12) == 4096;
    assert Pow2(20) == 0x10_0000;
    AndOnes(20, x / 4096);
    AndHighBits(12, 0xFFFFF, x / 4096, x % 4096);
    ShiftIsMultiply(x / 4096, 12);
    ShiftIsMultiply(0xFFFFF, 12);
  }

  /** Flags below 4096 are added to a page-aligned address. */
  lemma OrFlagsIntoPage(page: nat, low: nat, flags: nat)
    requires low < 4096 && flags < 4096
    ensures Or(low, flags) < 4096
    ensures Or(4096 * page + low, flags) == 4096 * page + Or(low, flags)
    ensures Or(4096 * page, flags) == 4096 * page + flags
  {
    assert Pow2(12) == 4096;
    ShiftIsMultiply(page, 12);
    OrLowBits(12, page, low, flags);
    OrLowBits(12, page, 0, flags);
    OrZero(flags);
  }

  /** `x & 0xFFFFF000` */
  method MaskPage(x: Word) returns (r: Word)
    ensures r == 4096 * (x / 4096)
  {
    MaskIsPageStart(x);
    r := And(x, PAGE_MASK);
  }

  /** `page | flags`, for a page-aligned address */
  method OrFlags(page: Word, flags: nat) returns (r: Word)
    requires page % 4096 == 0 && flags < 4096
    ensures r == page + flags
  {
    OrFlagsIntoPage(page / 4096, 0, flags);
    r := Or(page, flags);
  }
}
