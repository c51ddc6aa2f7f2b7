/**
 The 11-byte names of directory records: `transform_filename_to_fat` (`fat32.c`) writes them and
 `fat16_get_full_relative_filename` (`fat16.c`) prints them.
 */
module Names83 {
  import opened Words

  const SPACE: Byte := 0x20
  const DOT: Byte := 0x2E

  /** `toupper` */
  function Upper(c: Byte): Byte {
    if 97 <= c <= 122 then c - 32 else c
  }

  /** The 26 letters, and everything else as it is. */
  lemma UpperOfLetters(c: Byte)
    ensures Upper(97) == 65 && Upper(122) == 90
    ensures Upper(c) == if 97 <= c <= 122 then 65 + (c - 97) else c
  {
  }

  function UpperAll(s: seq<Byte>): (r: seq<Byte>)
    ensures |r| == |s|
  {
    seq(|s|, i requires 0 <= i < |s| => Upper(s[i]))
  }

  function Spaces(n: nat): seq<Byte> {
    seq(n, _ => SPACE)
  }

  /**
   The name once the rest of the source has been placed: characters go to successive places, the
   first dot jumps to place 8 (also backwards), later dots are dropped, place 11 ends the work.
   */
  function Place(src: seq<Byte>, dest: seq<Byte>, destPos: nat, dotSeen: bool): (r: seq<Byte>)
    requires |dest| == 11 && destPos <= 11
    ensures |r| == 11
  {
    if src == [] || destPos == 11 then dest
    else if src[0] == DOT then Place(src[1..], dest, if dotSeen then destPos else 8, true)
    else Place(src[1..], dest[destPos := Upper(src[0])], destPos + 1, dotSeen)
  }

  /** The 11-byte form of a file name. */
  function FatName(src: seq<Byte>): seq<Byte> {
    Place(src, Spaces(11), 0, false)
  }

  /** `src` is a C string: its characters, then a zero byte. */
  predicate IsCString(src: seq<Byte>, text: seq<Byte>) {
    |src| > |text| && src[..|text|] == text && src[|text|] == 0 && 0 !in text
  }

  /** `transform_filename_to_fat`: `srcPos` is eight bits wide, enough for names below 256 characters. */
  method TransformFilenameToFat(dest: array<Byte>, src: seq<Byte>, ghost text: seq<Byte>)
    requires dest.Length == 11 && IsCString(src, text) && |text| < 256
    modifies dest
    ensures dest[..] == FatName(text)
  {
    var destPos := 0;
    while destPos < 11
      invariant 0 <= destPos <= 11
      invariant forall i :: 0 <= i < destPos ==> dest[i] == SPACE
    {
      dest[destPos] := SPACE;
      destPos := destPos + 1;
    }
    assert dest[..] == Spaces(11);
    destPos := 0;
    var srcPos := 0;
    var isDotSeen := false;
    assert text[0..] == text;
    while destPos < 11
      invariant 0 <= destPos <= 11 && 0 <= srcPos <= |text|
      invariant Place(text[srcPos..], dest[..], destPos, isDotSeen) == FatName(text)
      decreases |text| - srcPos
    {
      assert srcPos < |text| ==> src[..|text|][srcPos] == text[srcPos];
      if src[srcPos] == 0 {
        return;
      }
      ghost var rest := text[srcPos..];
      assert rest[0] == src[srcPos] && rest[1..] == text[srcPos + 1..];
      if src[srcPos] == DOT {
        if isDotSeen {
          srcPos := (srcPos + 1) % 256;
        } else {
          isDotSeen := true;
          srcPos := (srcPos + 1) % 256;
          destPos := 8;
        }
      } else {
        ghost var before := dest[..];
        dest[destPos] := Upper(src[srcPos]);
        assert dest[..] == before[destPos := Upper(src[srcPos])];
        srcPos := (srcPos + 1) % 256;
        destPos := destPos + 1;
      }
    }
  }

  // ---------- Printing ----------

  /** The characters of a field up to the first zero or space. */
  function Field(s: seq<Byte>): (r: seq<Byte>)
    ensures |r| <= |s|
  {
    if s == [] || s[0] == 0 || s[0] == SPACE then [] else [s[0]] + Field(s[1..])
  }

  /** The printed form of an 11-byte name. */
  function Printed(name: seq<Byte>): seq<Byte>
    requires |name| == 11
  {
    Field(name[..8]) + if name[8] != 0 && name[8] != SPACE then [DOT] + Field(name[8..]) else []
  }

  /** The field is the longest prefix without an end character. */
  lemma {:induction false} FieldIsPrefix(s: seq<Byte>, n: nat)
    requires n <= |s| && (forall i :: 0 <= i < n ==> s[i] !in {0, 0x20}) && (n < |s| ==> s[n] in {0, 0x20})
    ensures Field(s) == s[..n]
  {
    if n > 0 {
      FieldIsPrefix(s[1..], n - 1);
      assert s[..n] == [s[0]] + s[1..][..n - 1];
    }
  }

  /** `fat16_to_proper_string`: copies a field of `size` bytes to `out` from `at` and ends it with a zero. */
  method ToProperString(out: array<Byte>, at: nat, field: seq<Byte>, size: nat) returns (next: nat)
    requires 1 <= size == |field| && at + size < out.Length
    modifies out
    ensures next == at + |Field(field)|
    ensures forall j :: 0 <= j < out.Length ==>
      out[j] == if at <= j < next then Field(field)[j - at] else if j == next then 0 else old(out[j])
  {
    var i, n := 0, 0;
    while field[n] != 0 && field[n] != SPACE
      invariant i == n && n < size
      invariant forall j :: 0 <= j < n ==> field[j] !in {0, 0x20}
      invariant forall j :: 0 <= j < out.Length ==> out[j] == if at <= j < at + n then field[j - at] else old(out[j])
      decreases size - n
    {
      out[at + n] := field[n];
      n := n + 1;
      if i >= size - 1 {
        break;
      }
      i := i + 1;
    }
    FieldIsPrefix(field, n);
    next := at + n;
    out[next] := 0;
  }

  /** Printed are base and extension, each up to its first zero or space; without an extension there is no dot. */
  lemma PrintedIs(name: seq<Byte>, n: nat, k: nat)
    requires |name| == 11 && n <= 8 && k <= 3
    requires (forall i :: 0 <= i < n ==> name[i] !in {0, 0x20}) && (n < 8 ==> name[n] in {0, 0x20})
    requires (forall i :: 8 <= i < 8 + k ==> name[i] !in {0, 0x20}) && (k < 3 ==> name[8 + k] in {0, 0x20})
    ensures Printed(name) == name[..n] + if k == 0 then [] else [0x2E] + name[8..8 + k]
  {
    FieldIsPrefix(name[..8], n);
    FieldIsPrefix(name[8..], k);
    assert name[..8][..n] == name[..n] && name[8..][..k] == name[8..8 + k];
  }

  /** `memset` with zero. */
  method Clear(out: array<Byte>, n: nat)
    requires n <= out.Length
    modifies out
    ensures forall j :: 0 <= j < out.Length ==> out[j] == if j < n then 0 else old(out[j])
  {
    var k := 0;
    while k < n
      invariant 0 <= k <= n
      invariant forall j :: 0 <= j < out.Length ==> out[j] == if j < k then 0 else old(out[j])
    {
      out[k] := 0;
      k := k + 1;
    }
  }

  /** `fat16_get_full_relative_filename` */
  method GetFullRelativeFilename(name: seq<Byte>, out: array<Byte>, maxLen: nat)
    requires |name| == 11 && 13 <= maxLen <= out.Length
    modifies out
    ensures forall k :: 0 <= k < out.Length ==>
      out[k] == if k < |Printed(name)| then Printed(name)[k] else if k < maxLen then 0 else old(out[k])
  {
    Clear(out, maxLen);
    var next := ToProperString(out, 0, name[..8], 8);
    if name[8] != 0 && name[8] != SPACE {
      ghost var base, ext := Field(name[..8]), Field(name[8..]);
      ghost var text := base + [DOT] + ext;
      out[next] := DOT;
      next := next + 1;
      next := ToProperString(out, next, name[8..], 3);
      assert Printed(name) == text;
      assert forall k :: |base| < k < |text| ==> text[k] == ext[k - (|base| + 1)];
    }
  }

  // ---------- Round trip ----------

  /** A part of a name: no zero byte, space or dot. */
  predicate Plain(s: seq<Byte>) {
    forall i :: 0 <= i < |s| ==> s[i] != 0 && s[i] != SPACE && s[i] != DOT
  }

  /** `base` or `base.ext`, with a base of 1 to 8 characters and an extension of at most 3. */
  function NameOf(base: seq<Byte>, ext: seq<Byte>): seq<Byte> {
    if ext == [] then base else base + [DOT] + ext
  }

  predicate Is83(base: seq<Byte>, ext: seq<Byte>) {
    1 <= |base| <= 8 && |ext| <= 3 && Plain(base) && Plain(ext)
  }

  /** Plain characters are upper-cased into successive places. */
  lemma {:induction false} PlacePlain(s: seq<Byte>, rest: seq<Byte>, dest: seq<Byte>, p: nat, dotSeen: bool)
    requires |dest| == 11 && p + |s| <= 11 && DOT !in s
    ensures Place(s + rest, dest, p, dotSeen) ==
      Place(rest, dest[..p] + UpperAll(s) + dest[p + |s|..], p + |s|, dotSeen)
  {
    if s == [] {
      assert s + rest == rest && dest[..p] + UpperAll(s) + dest[p..] == dest;
    } else {
      assert (s + rest)[1..] == s[1..] + rest;
      var d := dest[p := Upper(s[0])];
      PlacePlain(s[1..], rest, d, p + 1, dotSeen);
      assert d[..p + 1] + UpperAll(s[1..]) + d[p + 1 + |s[1..]|..] == dest[..p] + UpperAll(s) + dest[p + |s|..];
    }
  }

  function WithoutDots(s: seq<Byte>): seq<Byte> {
    if s == [] then [] else (if s[0] == DOT then [] else [s[0]]) + WithoutDots(s[1..])
  }

  /** Behind a dot, up to the end of the form: the other characters in order, without further dots. */
  lemma {:induction false} PlaceBehindDot(s: seq<Byte>, dest: seq<Byte>, p: nat)
    requires |dest| == 11 && p <= 11
    ensures
      var e, k := WithoutDots(s), Min(|WithoutDots(s)|, 11 - p);
      Place(s, dest, p, true) == dest[..p] + UpperAll(e[..k]) + dest[p + k..]
  {
    if s == [] || p == 11 {
      assert dest[..p] + UpperAll([]) + dest[p..] == dest;
      assert WithoutDots(s)[..0] == [];
    } else if s[0] == DOT {
      PlaceBehindDot(s[1..], dest, p);
      assert WithoutDots(s) == WithoutDots(s[1..]);
    } else {
      var d := dest[p := Upper(s[0])];
      assert Place(s, dest, p, true) == Place(s[1..], d, p + 1, true);
      assert WithoutDots(s) == [s[0]] + WithoutDots(s[1..]);
      PlaceBehindDot(s[1..], d, p + 1);
      OneCharacter(s[0], WithoutDots(s[1..]), dest, p);
    }
  }

  lemma OneCharacter(c: Byte, e: seq<Byte>, dest: seq<Byte>, p: nat)
    requires |dest| == 11 && p < 11
    ensures
      var d, k, l := dest[p := Upper(c)], Min(|e|, 10 - p), Min(|e| + 1, 11 - p);
      d[..p + 1] + UpperAll(e[..k]) + d[p + 1 + k..] == dest[..p] + UpperAll(([c] + e)[..l]) + dest[p + l..]
  {
    var k := Min(|e|, 10 - p);
    assert ([c] + e)[..k + 1] == [c] + e[..k];
    assert UpperAll([c] + e[..k]) == [Upper(c)] + UpperAll(e[..k]);
  }

  /**
   The form of any name: up to its first dot the characters go to the front, eleven at most; the others, without
   further dots, go to places 8 to 10, over what a base of more than eight characters has put there.
   */
  lemma FatNameInGeneral(base: seq<Byte>, rest: seq<Byte>)
    requires DOT !in base
    ensures |base| >= 11 ==> FatName(base + rest) == UpperAll(base[..11])
    ensures |base| < 11 ==>
      var named, e := UpperAll(base) + Spaces(11 - |base|), WithoutDots(rest);
      && FatName(base) == named
      && FatName(base + [DOT] + rest) == named[..8] + UpperAll(e[..Min(|e|, 3)]) + named[8 + Min(|e|, 3)..]
  {
    var blank := Spaces(11);
    if |base| >= 11 {
      var front := base[..11];
      assert base + rest == front + (base[11..] + rest);
      PlacePlain(front, base[11..] + rest, blank, 0, false);
      assert blank[..0] + UpperAll(front) + blank[11..] == UpperAll(front);
    } else {
      var named := UpperAll(base) + Spaces(11 - |base|);
      assert blank[..0] + UpperAll(base) + blank[|base|..] == named;
      PlacePlain(base, [], blank, 0, false);
      assert base + [] == base && base + [DOT] + rest == base + ([DOT] + rest);
      PlacePlain(base, [DOT] + rest, blank, 0, false);
      assert ([DOT] + rest)[1..] == rest;
      PlaceBehindDot(rest, named, 8);
    }
  }

  /** "a.b" */
  lemma FatNameExample()
    ensures FatName([97, 46, 98]) == [65, 32, 32, 32, 32, 32, 32, 32, 66, 32, 32]
  {
    FatNameInGeneral([97], [98]);
    assert [97] + [46] + [98] == [97, 46, 98];
    assert WithoutDots([98]) == [98];
  }

  lemma FatNameIs(base: seq<Byte>, ext: seq<Byte>)
    requires Is83(base, ext)
    ensures FatName(NameOf(base, ext)) == UpperAll(base) + Spaces(8 - |base|) + UpperAll(ext) + Spaces(3 - |ext|)
  {
    if ext == [] {
      assert base + [] == base;
      BasePlaced(base, []);
      assert Spaces(8 - |base|) + Spaces(3) == Spaces(11 - |base|);
    } else {
      assert base + ([DOT] + ext) == NameOf(base, ext);
      BasePlaced(base, [DOT] + ext);
      ExtensionPlaced(base, ext);
    }
  }

  /** The base, at the start of the blank form. */
  lemma BasePlaced(base: seq<Byte>, rest: seq<Byte>)
    requires |base| <= 8 && Plain(base)
    ensures FatName(base + rest) == Place(rest, UpperAll(base) + Spaces(11 - |base|), |base|, false)
  {
    var blank := Spaces(11);
    assert blank[..0] + UpperAll(base) + blank[|base|..] == UpperAll(base) + Spaces(11 - |base|);
    PlacePlain(base, rest, blank, 0, false);
  }

  /** A dot and the extension, behind the base. */
  lemma ExtensionPlaced(base: seq<Byte>, ext: seq<Byte>)
    requires |base| <= 8 && |ext| <= 3 && Plain(ext)
    ensures Place([DOT] + ext, UpperAll(base) + Spaces(11 - |base|), |base|, false) ==
      UpperAll(base) + Spaces(8 - |base|) + UpperAll(ext) + Spaces(3 - |ext|)
  {
    var named := UpperAll(base) + Spaces(11 - |base|);
    assert ([DOT] + ext)[1..] == ext + [];
    PlacePlain(ext, [], named, 8, true);
    assert named[..8] + UpperAll(ext) + named[8 + |ext|..]
      == UpperAll(base) + Spaces(8 - |base|) + UpperAll(ext) + Spaces(3 - |ext|);
  }

  lemma {:induction false} FieldOfPadded(s: seq<Byte>, n: nat)
    requires Plain(s)
    ensures Field(s + Spaces(n)) == s
  {
    if s == [] {
      assert s + Spaces(n) == Spaces(n);
    } else {
      FieldOfPadded(s[1..], n);
      assert (s + Spaces(n))[1..] == s[1..] + Spaces(n);
    }
  }

  lemma UpperStaysPlain(s: seq<Byte>)
    requires Plain(s)
    ensures Plain(UpperAll(s))
  {
  }

  /** Printing the 11-byte form of an 8.3 name gives the name in upper case. */
  lemma RoundTrip(base: seq<Byte>, ext: seq<Byte>)
    requires Is83(base, ext)
    ensures Printed(FatName(NameOf(base, ext))) == UpperAll(NameOf(base, ext))
  {
    FatNameIs(base, ext);
    UpperStaysPlain(base);
    UpperStaysPlain(ext);
    var name := FatName(NameOf(base, ext));
    assert name[..8] == UpperAll(base) + Spaces(8 - |base|);
    assert name[8..] == UpperAll(ext) + Spaces(3 - |ext|);
    FieldOfPadded(UpperAll(base), 8 - |base|);
    FieldOfPadded(UpperAll(ext), 3 - |ext|);
    if ext == [] {
      assert name[8] == name[8..][0] == SPACE;
    } else {
      assert name[8] == name[8..][0] == UpperAll(ext)[0];
      assert UpperAll(base) + ([DOT] + UpperAll(ext)) == UpperAll(base + [DOT] + ext);
    }
  }

  /** Two 8.3 names have the same 11-byte form if and only if they are equal ignoring case. */
  lemma SameFormIff(base: seq<Byte>, ext: seq<Byte>, base': seq<Byte>, ext': seq<Byte>)
    requires Is83(base, ext) && Is83(base', ext')
    ensures FatName(NameOf(base, ext)) == FatName(NameOf(base', ext')) <==>
      UpperAll(NameOf(base, ext)) == UpperAll(NameOf(base', ext'))
  {
    RoundTrip(base, ext);
    RoundTrip(base', ext');
    if UpperAll(NameOf(base, ext)) == UpperAll(NameOf(base', ext')) {
      UpperFirst(base, ext, base', ext');
      FatNameIs(base, ext);
      FatNameIs(base', ext');
    }
  }

  lemma DotPlace(base: seq<Byte>, ext: seq<Byte>, i: nat)
    requires Is83(base, ext) && i < |NameOf(base, ext)|
    ensures UpperAll(NameOf(base, ext))[i] == DOT <==> i == |base|
  {
  }

  lemma UpperFirst(base: seq<Byte>, ext: seq<Byte>, base': seq<Byte>, ext': seq<Byte>)
    requires Is83(base, ext) && Is83(base', ext') && UpperAll(NameOf(base, ext)) == UpperAll(NameOf(base', ext'))
    ensures UpperAll(base) == UpperAll(base') && UpperAll(ext) == UpperAll(ext')
  {
    var u := UpperAll(NameOf(base, ext));
    if |base| < |u| {
      DotPlace(base, ext, |base|);
      DotPlace(base', ext', |base|);
    }
    if |base'| < |u| {
      DotPlace(base, ext, |base'|);
      DotPlace(base', ext', |base'|);
    }
    assert |base| == |base'|;
    assert UpperAll(base) == u[..|base|] == UpperAll(base');
    if ext != [] {
      assert UpperAll(ext) == u[|base| + 1..] == UpperAll(ext');
    }
  }
}
