/**
 The tokenizer of the user library (`string.c`), which cuts a string in place and remembers its
 position in a static variable between calls.
 */
module Strtok {
  import opened Words

  type Text = seq<Byte>

  // ---------- C strings in memory ----------

  /** `t` is the text at `p`: its characters, none zero, then a zero byte. */
  predicate TextAt(s: seq<Byte>, p: nat, t: Text) {
    && p + |t| < |s|
    && s[p + |t|] == 0
    && forall i :: 0 <= i < |t| ==> s[p + i] == t[i] && t[i] != 0
  }

  // ---------- The pieces of a text ----------

  function Skip(t: Text, delims: seq<Byte>): (r: Text)
    ensures |r| <= |t|
  {
    if t != [] && t[0] in delims then Skip(t[1..], delims) else t
  }

  /** The characters before the first delimiter. */
  function Piece(t: Text, delims: seq<Byte>): (r: Text)
    ensures |r| <= |t|
  {
    if t == [] || t[0] in delims then [] else [t[0]] + Piece(t[1..], delims)
  }

  /** What follows the first piece and the delimiter that ends it. */
  function After(t: Text, delims: seq<Byte>): Text {
    if |Piece(t, delims)| < |t| then t[|Piece(t, delims)| + 1..] else []
  }

  /** The non-empty maximal pieces without delimiters, in order. */
  function Pieces(t: Text, delims: seq<Byte>): seq<Text>
    decreases |t|
  {
    var u := Skip(t, delims);
    if u == [] then [] else [Piece(u, delims)] + Pieces(After(u, delims), delims)
  }

  lemma {:induction false} SkipIs(t: Text, delims: seq<Byte>, n: nat)
    requires n <= |t| && (forall i :: 0 <= i < n ==> t[i] in delims) && (n < |t| ==> t[n] !in delims)
    ensures Skip(t, delims) == t[n..]
  {
    if n > 0 {
      SkipIs(t[1..], delims, n - 1);
      assert t[1..][n - 1..] == t[n..];
    }
  }

  lemma {:induction false} PieceIs(t: Text, delims: seq<Byte>, n: nat)
    requires n <= |t| && (forall i :: 0 <= i < n ==> t[i] !in delims) && (n < |t| ==> t[n] in delims)
    ensures Piece(t, delims) == t[..n]
  {
    if n > 0 {
      PieceIs(t[1..], delims, n - 1);
      assert t[..n] == [t[0]] + t[1..][..n - 1];
    }
  }

  // ---------- What the pieces are ----------

  function Concat(ts: seq<Text>): Text {
    if ts == [] then [] else ts[0] + Concat(ts[1..])
  }

  function Kept(c: Byte, delims: seq<Byte>): Text {
    if c in delims then [] else [c]
  }

  function Without(t: Text, delims: seq<Byte>): Text {
    if t == [] then [] else Kept(t[0], delims) + Without(t[1..], delims)
  }

  lemma {:induction false} SkipLosesDelimiters(t: Text, delims: seq<Byte>)
    ensures Without(Skip(t, delims), delims) == Without(t, delims)
  {
    if t != [] && t[0] in delims {
      SkipLosesDelimiters(t[1..], delims);
    }
  }

  lemma {:induction false} PieceIsClean(t: Text, delims: seq<Byte>)
    ensures Piece(t, delims) == t[..|Piece(t, delims)|]
    ensures forall c :: c in Piece(t, delims) ==> c !in delims
    ensures |Piece(t, delims)| < |t| ==> t[|Piece(t, delims)|] in delims
  {
    if t != [] && t[0] !in delims {
      PieceIsClean(t[1..], delims);
    }
  }

  /** The pieces are non-empty, have no delimiter, and together are the text without its delimiters. */
  lemma {:induction false} PiecesPartitionText(t: Text, delims: seq<Byte>)
    ensures forall i :: 0 <= i < |Pieces(t, delims)| ==>
      Pieces(t, delims)[i] != [] && forall c :: c in Pieces(t, delims)[i] ==> c !in delims
    ensures Concat(Pieces(t, delims)) == Without(t, delims)
    decreases |t|
  {
    var u := Skip(t, delims);
    SkipLosesDelimiters(t, delims);
    if u != [] {
      SkippedStart(t, delims);
      PieceIsClean(u, delims);
      PiecesPartitionText(After(u, delims), delims);
      PieceThenRest(u, delims);
    }
  }

  lemma {:induction false} PieceThenRest(t: Text, delims: seq<Byte>)
    ensures Without(t, delims) == Piece(t, delims) + Without(After(t, delims), delims)
  {
    if t != [] {
      var tail := t[1..];
      if t[0] in delims {
        assert Piece(t, delims) == [] && After(t, delims) == tail;
      } else {
        PieceThenRest(tail, delims);
        AfterOfTail(t, delims);
        Regroup([t[0]], Piece(tail, delims), Without(After(t, delims), delims));
      }
    }
  }

  lemma AfterOfTail(t: Text, delims: seq<Byte>)
    requires t != [] && t[0] !in delims
    ensures After(t, delims) == After(t[1..], delims)
  {
  }

  lemma Regroup(a: Text, b: Text, c: Text)
    ensures a + (b + c) == (a + b) + c
  {
  }

  lemma {:induction false} SkippedStart(t: Text, delims: seq<Byte>)
    ensures Skip(t, delims) != [] ==> Skip(t, delims)[0] !in delims
  {
    if t != [] && t[0] in delims {
      SkippedStart(t[1..], delims);
    }
  }

  /**
   Pieces are maximal: a word between delimiters (or the ends of the text) is one piece, whole, and
   the rest of the text is cut on its own.
   */
  lemma PiecesOfWord(gap: Text, word: Text, rest: Text, delims: seq<Byte>)
    requires forall c :: c in gap ==> c in delims
    requires word != [] && forall c :: c in word ==> c !in delims
    requires rest != [] ==> rest[0] in delims
    ensures Pieces(gap + word + rest, delims) == [word] + Pieces(rest, delims)
  {
    var t := gap + word + rest;
    SkipIs(t, delims, |gap|);
    var u := t[|gap|..];
    assert u == word + rest;
    PieceIs(u, delims, |word|);
    if rest != [] {
      assert After(u, delims) == rest[1..];
      assert Skip(rest, delims) == Skip(rest[1..], delims);
    } else {
      assert Pieces(rest, delims) == [];
    }
  }

  // ---------- strtok ----------

  class Tokenizer {
    /** The static `sp`: null, or a position in the string being cut. */
    var buf: array?<Byte>
    var sp: nat

    constructor ()
      ensures buf == null && sp == 0
    {
      buf, sp := null, 0;
    }

    /** The inner `for` over the delimiters. */
    static method IsDelimiter(c: Byte, delims: seq<Byte>) returns (found: bool)
      ensures found <==> c in delims
    {
      var i := 0;
      while i < |delims|
        invariant 0 <= i <= |delims| && c !in delims[..i]
      {
        if c == delims[i] {
          return true;
        }
        i := i + 1;
      }
      found := false;
    }

    /** The first loop: past the leading delimiters. `t` is the text at `start`. */
    static method SkipDelimiters(s: array<Byte>, start: nat, delims: seq<Byte>, ghost t: Text) returns (p: nat)
      requires TextAt(s[..], start, t) && 0 !in delims
      ensures start <= p <= start + |t| && Skip(t, delims) == t[p - start..]
      ensures p < start + |t| ==> s[p] !in delims
    {
      p := start;
      while true
        invariant start <= p <= start + |t|
        invariant forall i :: 0 <= i < p - start ==> t[i] in delims
        decreases start + |t| - p
      {
        assert p < start + |t| ==> s[..][start + (p - start)] == t[p - start];
        assert s[..][start + |t|] == 0;
        var found := IsDelimiter(s[p], delims);
        if !found {
          break;
        }
        p := p + 1;
      }
      SkipIs(t, delims, p - start);
    }

    /** The second loop: to the end of the piece, where a delimiter is overwritten by a zero. */
    static method CutPiece(s: array<Byte>, start: nat, delims: seq<Byte>, ghost u: Text) returns (sp: nat)
      requires TextAt(s[..], start, u) && u != [] && u[0] !in delims && 0 !in delims
      modifies s
      ensures var w := Piece(u, delims);
        && s[..] == old(s[..])[start + |w| := 0]
        && sp == if |w| < |u| then start + |w| + 1 else start + |w|
    {
      sp := start;
      ghost var n := 0;
      assert s[..][start + 0] == u[0];
      while s[sp] != 0
        invariant 0 <= n <= |u| && sp == start + n && s[..] == old(s[..])
        invariant forall i :: 0 <= i < n ==> u[i] !in delims
        invariant if n < |u| then s[sp] == u[n] != 0 else s[sp] == 0
        decreases |u| - n
      {
        assert n + 1 < |u| ==> s[..][start + (n + 1)] == u[n + 1];
        assert s[..][start + |u|] == 0;
        var found := IsDelimiter(s[sp], delims);
        if found {
          s[sp] := 0;
        }
        sp := sp + 1;
        if found {
          PieceIs(u, delims, n);
          return;
        }
        n := n + 1;
      }
      PieceIs(u, delims, |u|);
    }

    /**
     `strtok`: a null result is -1. While `sp` is set the string argument is ignored; `t` is the text at
     the position the call starts from.
     */
    method Next(str: array?<Byte>, delims: seq<Byte>, ghost t: Text) returns (p: int)
      requires 0 !in delims
      requires buf != null ==> TextAt(buf[..], sp, t)
      requires buf == null && str != null ==> TextAt(str[..], 0, t)
      modifies this, buf, str
      ensures old(buf) == null && str == null ==> p == -1 && buf == null
      ensures old(buf) != null || str != null ==>
        var s: array<Byte> := if old(buf) != null then old(buf) else str;
        var start := if old(buf) != null then old(sp) else 0;
        var u := Skip(t, delims);
        && (u == [] ==> p == -1 && buf == null && s[..] == old(s[..]))
        && (u != [] ==>
          && p == start + (|t| - |u|) && buf == s
          && s[..] == old(s[..])[p + |Piece(u, delims)| := 0]
          && TextAt(s[..], p, Piece(u, delims)) && TextAt(s[..], sp, After(u, delims)))
    {
      if str == null && buf == null {
        return -1;
      }
      if str != null && buf == null {
        buf, sp := str, 0;
      }
      p := Advance(delims, t);
    }

    /** `strtok` once `sp` is set. */
    method Advance(delims: seq<Byte>, ghost t: Text) returns (p: int)
      requires 0 !in delims && buf != null && TextAt(buf[..], sp, t)
      modifies this, buf
      ensures var s, u := old(buf), Skip(t, delims);
        && (u == [] ==> p == -1 && buf == null && s[..] == old(buf[..]))
        && (u != [] ==>
          && p == old(sp) + (|t| - |u|) && buf == s
          && s[..] == old(buf[..])[p + |Piece(u, delims)| := 0]
          && TextAt(s[..], p, Piece(u, delims)) && TextAt(s[..], sp, After(u, delims)))
    {
      ghost var start := sp;
      var s := buf;
      var pStart := SkipDelimiters(s, sp, delims, t);
      sp := pStart;
      ghost var u := Skip(t, delims);
      TextTail(s[..], start, t, pStart - start);
      assert u != [] ==> s[..][pStart + 0] == u[0];
      assert s[..][pStart + |u|] == 0;
      if s[sp] == 0 {
        buf, sp := null, 0;
        return -1;
      }
      ghost var before := s[..];
      sp := CutPiece(s, sp, delims, u);
      CutTexts(before, s[..], pStart, u, delims);
      p := pStart;
    }
  }

  lemma TextTail(s: seq<Byte>, p: nat, t: Text, n: nat)
    requires TextAt(s, p, t) && n <= |t|
    ensures TextAt(s, p + n, t[n..])
  {
    forall i | 0 <= i < |t| - n
      ensures s[p + n + i] == t[n..][i] && t[n..][i] != 0
    {
      assert s[p + (n + i)] == t[n + i];
    }
  }

  /** After the cut the piece is a string of its own, and the rest follows it. */
  lemma CutTexts(s: seq<Byte>, n: seq<Byte>, p: nat, u: Text, delims: seq<Byte>)
    requires TextAt(s, p, u) && n == s[p + |Piece(u, delims)| := 0]
    ensures TextAt(n, p, Piece(u, delims))
    ensures TextAt(n, if |Piece(u, delims)| < |u| then p + |Piece(u, delims)| + 1 else p + |Piece(u, delims)|,
                   After(u, delims))
  {
    PieceIsClean(u, delims);
    CutAt(s, n, p, u, |Piece(u, delims)|);
  }

  lemma CutAt(s: seq<Byte>, n: seq<Byte>, p: nat, u: Text, k: nat)
    requires TextAt(s, p, u) && k <= |u| && n == s[p + k := 0]
    ensures TextAt(n, p, u[..k])
    ensures k < |u| ==> TextAt(n, p + k + 1, u[k + 1..])
    ensures k == |u| ==> TextAt(n, p + k, [])
  {
    forall i | 0 <= i < k
      ensures n[p + i] == u[..k][i] && u[..k][i] != 0
    {
      assert s[p + i] == u[i];
    }
    if k < |u| {
      TextTail(s, p, u, k + 1);
      var v := u[k + 1..];
      forall i | 0 <= i < |v|
        ensures n[p + k + 1 + i] == v[i] && v[i] != 0
      {
        assert s[p + (k + 1) + i] == v[i];
      }
    }
  }
}
