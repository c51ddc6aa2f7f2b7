/**
 Decimal text of a 32-bit integer (`itoa` in `stdlib.c`), written backwards into a 12-byte buffer.
 */
module Itoa {
  import opened Words

  type Int32 = x: int | -0x8000_0000 <= x < 0x8000_0000

  const ZERO: Byte := 48
  const MINUS: Byte := 45

  /** C division and remainder truncate towards zero. */
  function CDiv(a: int, b: int): int
    requires b > 0
  {
    if a >= 0 then a / b else -((-a) / b)
  }

  function CMod(a: int, b: int): int
    requires b > 0
  {
    a - b * CDiv(a, b)
  }

  /** The decimal numeral of `m` with `k` zeros behind it. */
  function Weight(m: nat, k: nat): nat {
    if k == 0 then m else 10 * Weight(m, k - 1)
  }

  predicate IsDigits(s: seq<Byte>) {
    forall i :: 0 <= i < |s| ==> ZERO <= s[i] <= ZERO + 9
  }

  /** The number that a row of digits denotes. */
  function Digits(s: seq<Byte>): nat
    requires IsDigits(s)
  {
    if s == [] then 0 else Weight(s[0] as int - 48, |s| - 1) + Digits(s[1..])
  }

  /** The integer that a text denotes. */
  function Decode(s: seq<Byte>): int
    requires IsDigits(if s != [] && s[0] == MINUS then s[1..] else s)
  {
    if s != [] && s[0] == MINUS then 0 - (Digits(s[1..]) as int) else Digits(s)
  }

  /** "-120" denotes minus one hundred and twenty. */
  lemma DecodeExample()
    ensures Decode([45, 49, 50, 48]) == -120 && Decode([48]) == 0
  {
    var s: seq<Byte> := [45, 49, 50, 48];
    assert s[1..] == [49, 50, 48] && s[1..][1..] == [50, 48] && s[1..][1..][1..] == [48];
    assert Weight(1, 2) == 100 && Weight(2, 1) == 20;
  }

  lemma {:induction false} WeightSplits(q: nat, r: nat, k: nat)
    ensures Weight(10 * q + r, k) == Weight(q, k + 1) + Weight(r, k)
  {
    if k > 0 {
      WeightSplits(q, r, k - 1);
    }
  }

  /** Moving the last digit of the number still to be written to the front of the text. */
  lemma DigitMoved(m: nat, s: seq<Byte>, d: Byte)
    requires IsDigits(s) && d as int == 48 + m % 10
    ensures IsDigits([d] + s)
    ensures Weight(m, |s|) + Digits(s) == Weight(m / 10, |s| + 1) + Digits([d] + s)
    ensures Weight(m / 10, |s| + 1) <= Weight(m, |s|)
  {
    var q, r := m / 10, m % 10;
    assert m == 10 * q + r;
    DigitInFront(d, s);
    WeightSplits(q, r, |s|);
  }

  lemma DigitInFront(d: Byte, s: seq<Byte>)
    requires IsDigits(s) && ZERO <= d <= ZERO + 9
    ensures IsDigits([d] + s) && Digits([d] + s) == Weight(d as int - 48, |s|) + Digits(s)
  {
    var t := [d] + s;
    assert t[1..] == s;
    assert IsDigits(t);
    FirstDigit(t, d, s);
  }

  lemma FirstDigit(t: seq<Byte>, d: Byte, s: seq<Byte>)
    requires IsDigits(t) && t != [] && t[0] == d && t[1..] == s
    ensures ZERO <= d && IsDigits(s) && Digits(t) == Weight(d as int - 48, |s|) + Digits(s)
  {
  }

  lemma {:induction false} WeightOfZero(k: nat)
    ensures Weight(0, k) == 0
  {
    if k > 0 {
      WeightOfZero(k - 1);
    }
  }

  lemma {:induction false} WeightGrows(m: nat, j: nat, k: nat)
    requires m >= 1 && j <= k
    ensures Weight(1, j) <= Weight(m, k)
  {
    if j < k {
      WeightGrows(m, j, k - 1);
    } else if j > 0 {
      WeightGrows(m, j - 1, k - 1);
    }
  }

  /** A number of at most 2^31 has at most ten digits. */
  lemma FewDigits(m: nat, k: nat)
    requires m >= 1 && Weight(m, k) <= 0x8000_0000
    ensures k <= 9
  {
    WeightOf100000(5);
    assert Weight(100_000, 2) == 10_000_000;
    assert Weight(1, 10) == 10_000_000_000;
    if k >= 10 {
      WeightGrows(m, 10, k);
    }
  }

  lemma {:induction false} WeightOf100000(k: nat)
    ensures Weight(1, k + 5) == Weight(100_000, k)
  {
    if k > 0 {
      WeightOf100000(k - 1);
    } else {
      assert Weight(1, 3) == 1000;
    }
  }

  /**
   `itoa`: the text from `loc` to the zero byte at 11 denotes `n`, without leading zeros; no index
   leaves the buffer, not even for the least integer.
   */
  method Itoa(text: array<Byte>, n: Int32) returns (loc: nat)
    requires text.Length == 12
    modifies text
    ensures loc < 11 && text[11] == 0
    ensures (n < 0 <==> text[loc] == MINUS) && IsDigits(text[if n < 0 then loc + 1 else loc..11])
    ensures Decode(text[loc..11]) == n
    ensures n != 0 ==> text[if n < 0 then loc + 1 else loc] != ZERO
  {
    var i: int := n;
    text[11] := 0;
    var neg := true;
    if i >= 0 {
      neg := false;
      i := -i;
    }
    loc := WriteDigits(text, i);
    if loc == 11 {
      loc := loc - 1;
      text[loc] := ZERO;
      assert text[loc..11] == [ZERO];
    }
    if neg {
      ghost var digits := text[loc..11];
      loc := loc - 1;
      text[loc] := MINUS;
      assert text[loc..11] == [MINUS] + digits && text[loc + 1..11] == digits;
    }
  }

  lemma OneMore(before: seq<Byte>, after: seq<Byte>, loc: nat)
    requires |before| == |after| == 12 && loc < 11 && after == before[loc := after[loc]]
    ensures after[loc..11] == [after[loc]] + before[loc + 1..11]
  {
  }

  /** The loop, for a number that is not positive. */
  method WriteDigits(text: array<Byte>, n: int) returns (loc: nat)
    requires text.Length == 12 && -0x8000_0000 <= n <= 0 && text[11] == 0
    modifies text
    ensures 1 <= loc <= 11 && text[11] == 0
    ensures IsDigits(text[loc..11]) && Digits(text[loc..11]) == -n
    ensures n != 0 <==> loc < 11
    ensures n != 0 ==> text[loc] != ZERO
  {
    var i := n;
    loc := 11;
    while i != 0
      invariant i <= 0 && 1 <= loc <= 11 && text[11] == 0
      invariant IsDigits(text[loc..11]) && -n == Weight(-i, 11 - loc) + Digits(text[loc..11])
      invariant Weight(-i, 11 - loc) <= 0x8000_0000
      invariant i == 0 && n != 0 ==> loc < 11 && text[loc] != ZERO
      invariant n == 0 ==> i == 0 && loc == 11
      decreases -i
    {
      FewDigits(-i, 11 - loc);
      ghost var before, s := text[..], text[loc..11];
      assert CMod(i, 10) == -((-i) % 10);
      loc := loc - 1;
      text[loc] := 48 - CMod(i, 10);
      OneMore(before, text[..], loc);
      DigitMoved(-i, s, text[loc]);
      i := CDiv(i, 10);
    }
    WeightOfZero(11 - loc);
  }
}
