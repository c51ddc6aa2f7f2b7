/**
 Cutting a command line into a list of arguments (`peachos_parse_command` in `peachos.c`).
 */
module Command {
  import opened Words
  import opened Strtok

  const ARGUMENT_SIZE: nat := 512
  const COMMAND_SIZE: nat := 1025
  const BLANK: seq<Byte> := [0x20]

  /** At most `n` characters of a text. */
  function Truncate(t: Text, n: nat): Text {
    if |t| > n then t[..n] else t
  }

  /** `strncpy` of the library: at most `count - 1` characters, always ended by a zero. */
  method Strncpy(dest: array<Byte>, src: seq<Byte>, from: nat, count: nat, ghost t: Text)
    requires 1 <= count <= dest.Length && TextAt(src, from, t)
    modifies dest
    ensures TextAt(dest[..], 0, Truncate(t, count - 1))
  {
    var i := 0;
    while i < count - 1
      invariant 0 <= i <= count - 1 && i <= |t|
      invariant forall j :: 0 <= j < i ==> dest[j] == t[j]
    {
      assert i < |t| ==> src[from + i] == t[i];
      if src[from + i] == 0 {
        break;
      }
      dest[i] := src[from + i];
      i := i + 1;
    }
    dest[i] := 0;
    ghost var u := Truncate(t, count - 1);
    assert |u| == i;
    forall j | 0 <= j < |u|
      ensures dest[..][0 + j] == u[j] && u[j] != 0
    {
      assert src[from + j] == t[j];
    }
  }

  class CommandArgument {
    const argument: array<Byte>
    var next: CommandArgument?

    constructor ()
      ensures next == null && fresh(argument) && argument.Length == ARGUMENT_SIZE
    {
      argument := new Byte[ARGUMENT_SIZE](_ => 0);
      next := null;
    }
  }

  /** The arguments linked from `root`, in order, are `list`. */
  ghost predicate IsList(root: CommandArgument?, list: seq<CommandArgument>)
    reads list
  {
    && root == (if list == [] then null else list[0])
    && (forall i, j :: 0 <= i < j < |list| ==> list[i] != list[j])
    && forall i :: 0 <= i < |list| ==> list[i].next == if i + 1 < |list| then list[i + 1] else null
  }

  ghost predicate IsCopy(a: array<Byte>, piece: Text)
    reads a
  {
    TextAt(a[..], 0, if |piece| > 511 then piece[..511] else piece)
  }

  /** Argument `i` holds the `i`-th piece, truncated to 511 characters. */
  ghost predicate Holds(list: seq<CommandArgument>, pieces: seq<Text>)
    reads set a | a in list :: a.argument
  {
    && |list| <= |pieces|
    && forall i :: 0 <= i < |list| ==> IsCopy(list[i].argument, pieces[i])
  }

  /** A new argument holding a copy of the text at `from`. */
  method NewArgument(src: seq<Byte>, from: nat, ghost t: Text) returns (a: CommandArgument)
    requires TextAt(src, from, t)
    ensures fresh(a) && fresh(a.argument) && a.next == null
    ensures TextAt(a.argument[..], 0, Truncate(t, ARGUMENT_SIZE - 1))
  {
    a := new CommandArgument();
    Strncpy(a.argument, src, from, ARGUMENT_SIZE, t);
  }

  /** A new argument for the next piece, linked behind the last one. */
  method Append(current: CommandArgument, src: seq<Byte>, from: nat,
                ghost root: CommandArgument?, ghost list: seq<CommandArgument>, ghost pieces: seq<Text>)
    returns (a: CommandArgument)
    requires IsList(root, list) && list != [] && current == list[|list| - 1]
    requires Holds(list, pieces) && |list| < |pieces| && TextAt(src, from, pieces[|list|])
    modifies current
    ensures fresh(a) && fresh(a.argument)
    ensures IsList(root, list + [a]) && Holds(list + [a], pieces)
  {
    a := NewArgument(src, from, pieces[|list|]);
    current.next := a;
  }

  /** The tokenizer is cutting `s` and stands before the pieces from number `n` on. */
  ghost predicate StandsBefore(tok: Tokenizer, s: array<Byte>, rest: Text, pieces: seq<Text>, n: nat)
    reads tok, s
  {
    n <= |pieces| && tok.buf == s && TextAt(s[..], tok.sp, rest) && Pieces(rest, BLANK) == pieces[n..]
  }

  /** Piece `n` has been cut out at `token`; or there was none and the tokenizer is at rest. */
  ghost predicate Cut(tok: Tokenizer, s: array<Byte>, token: int, rest: Text, pieces: seq<Text>, n: nat)
    reads tok, s
  {
    if token == -1 then n == |pieces| && tok.buf == null
    else token >= 0 && n < |pieces| && TextAt(s[..], token, pieces[n]) && StandsBefore(tok, s, rest, pieces, n + 1)
  }

  /** `strtok(NULL, " ")` in the middle of a command. */
  method NextPiece(tok: Tokenizer, s: array<Byte>, ghost rest: Text, ghost pieces: seq<Text>, ghost n: nat)
    returns (token: int, ghost rest': Text)
    requires StandsBefore(tok, s, rest, pieces, n)
    modifies tok, s
    ensures Cut(tok, s, token, rest', pieces, n)
  {
    token := tok.Next(null, BLANK, rest);
    rest' := After(Skip(rest, BLANK), BLANK);
    assert n < |pieces| ==> pieces[n..][0] == pieces[n] && pieces[n..][1..] == pieces[n + 1..];
  }

  /**
   `strtok(scommand, " ")` at the start of a command: if the tokenizer is still in the middle of an earlier
   one it goes on there. The result is a place in `work`.
   */
  method FirstPiece(tok: Tokenizer, s: array<Byte>, ghost text: Text)
    returns (work: array<Byte>, token: int, ghost rest: Text)
    requires if tok.buf == null then TextAt(s[..], 0, text) else TextAt(tok.buf[..], tok.sp, text)
    modifies tok, s, tok.buf
    ensures work == (if old(tok.buf) == null then s else old(tok.buf))
    ensures Cut(tok, work, token, rest, Pieces(text, BLANK), 0)
  {
    work := if tok.buf == null then s else tok.buf;
    token := tok.Next(s, BLANK, text);
    rest := After(Skip(text, BLANK), BLANK);
    ghost var pieces := Pieces(text, BLANK);
    assert pieces != [] ==> pieces[1..] == Pieces(rest, BLANK);
  }

  /**
   `peachos_parse_command`, when `allocations` calls of the allocator succeed. `t` is the text of the
   command, and `u` the text at which an earlier command left the tokenizer, if it is in the middle of one.
   The list holds the pieces of the first 1024 characters of `t`, or else those of `u`, as far as memory
   lasted. The tokenizer is ready for the next command if and only if all of them were allocated; if not, one
   more piece is cut out and lost, and it stands before the ones after that.
   */
  method ParseCommand(tok: Tokenizer, command: seq<Byte>, max: int, allocations: nat, ghost t: Text, ghost u: Text)
    returns (root: CommandArgument?, ghost list: seq<CommandArgument>, ghost rest: Text)
    requires TextAt(command, 0, t) && (tok.buf != null ==> TextAt(tok.buf[..], tok.sp, u))
    modifies tok, tok.buf
    ensures IsList(root, list)
    ensures tok.buf == null || tok.buf == old(tok.buf) || fresh(tok.buf)
    ensures max >= 1025 ==> list == [] && tok.buf == old(tok.buf)
    ensures max < 1025 ==>
      var pieces := Pieces(if old(tok.buf) != null then u else if |t| > 1024 then t[..1024] else t, [0x20]);
      && |list| == Min(|pieces|, allocations)
      && Holds(list, pieces)
      && (tok.buf == null <==> allocations >= |pieces|)
      && (tok.buf != null ==> StandsBefore(tok, tok.buf, rest, pieces, |list| + 1))
  {
    root, list, rest := null, [], [];
    if max >= COMMAND_SIZE {
      return;
    }
    var scommand := new Byte[COMMAND_SIZE](_ => 0);
    Strncpy(scommand, command, 0, COMMAND_SIZE, t);
    ghost var text := if tok.buf == null then Truncate(t, COMMAND_SIZE - 1) else u;
    ghost var pieces := Pieces(text, BLANK);
    var work, token;
    work, token, rest := FirstPiece(tok, scommand, text);
    if token != -1 && allocations > 0 {
      root, list, rest := ParseFrom(tok, work, token, allocations - 1, rest, pieces);
    }
  }

  /** The first argument and the ones after it. */
  method ParseFrom(tok: Tokenizer, work: array<Byte>, first: int, allocations: nat,
                   ghost start: Text, ghost pieces: seq<Text>)
    returns (root: CommandArgument, ghost list: seq<CommandArgument>, ghost rest: Text)
    requires first != -1 && Cut(tok, work, first, start, pieces, 0)
    modifies tok, work
    ensures IsList(root, list) && Holds(list, pieces)
    ensures |list| == Min(|pieces|, allocations + 1)
    ensures tok.buf == null <==> allocations + 1 >= |pieces|
    ensures tok.buf != null ==> StandsBefore(tok, work, rest, pieces, |list| + 1)
  {
    root := NewArgument(work[..], first, pieces[0]);
    var token;
    token, rest := NextPiece(tok, work, start, pieces, 1);
    list, rest := ParseRest(tok, work, root, token, allocations, rest, pieces);
  }

  /** The list so far, its last argument, and the buffer being cut, which no argument uses. */
  ghost predicate Growing(root: CommandArgument, list: seq<CommandArgument>, current: CommandArgument,
                          scommand: array<Byte>, pieces: seq<Text>)
    reads list, set a | a in list :: a.argument
  {
    && list != [] && current == list[|list| - 1]
    && IsList(root, list) && Holds(list, pieces)
    && forall i :: 0 <= i < |list| ==> list[i].argument != scommand
  }

  /** One turn of the loop below: an argument for the piece at `token`, then the next piece. */
  method AddArgument(tok: Tokenizer, scommand: array<Byte>, current: CommandArgument, token: int,
                     ghost root: CommandArgument, ghost list: seq<CommandArgument>,
                     ghost rest: Text, ghost pieces: seq<Text>)
    returns (a: CommandArgument, token': int, ghost rest': Text)
    requires Growing(root, list, current, scommand, pieces)
    requires token != -1 && Cut(tok, scommand, token, rest, pieces, |list|)
    modifies tok, scommand, current
    ensures fresh(a) && Growing(root, list + [a], a, scommand, pieces)
    ensures Cut(tok, scommand, token', rest', pieces, |list| + 1)
  {
    a := Append(current, scommand[..], token, root, list, pieces);
    token', rest' := NextPiece(tok, scommand, rest, pieces, |list| + 1);
  }

  /** The loop of `peachos_parse_command`, behind the first argument. */
  method ParseRest(tok: Tokenizer, scommand: array<Byte>, root: CommandArgument, first: int, allocations: nat,
                   ghost start: Text, ghost pieces: seq<Text>)
    returns (ghost list: seq<CommandArgument>, ghost rest: Text)
    requires IsList(root, [root]) && Holds([root], pieces) && scommand != root.argument
    requires Cut(tok, scommand, first, start, pieces, 1)
    modifies tok, scommand, root
    ensures IsList(root, list) && Holds(list, pieces)
    ensures |list| == Min(|pieces|, allocations + 1)
    ensures tok.buf == null <==> allocations + 1 >= |pieces|
    ensures tok.buf != null ==> StandsBefore(tok, scommand, rest, pieces, |list| + 1)
  {
    list := [root];
    var current := root;
    var token, left := first, allocations;
    rest := start;
    while token != -1
      invariant 1 <= |list| && left == allocations + 1 - |list| && left >= 0
      invariant current == root || fresh(current)
      invariant Growing(root, list, current, scommand, pieces)
      invariant Cut(tok, scommand, token, rest, pieces, |list|)
      decreases left, if token == -1 then 0 else 1
    {
      if left == 0 {
        break;
      }
      left := left - 1;
      current, token, rest := AddArgument(tok, scommand, current, token, root, list, rest, pieces);
      list := list + [current];
    }
  }

  /** After a command "a b" for which only one allocation succeeds, the command "c" is not looked at. */
  method NextCommandIsLost(tok: Tokenizer, allocations: nat) returns (second: CommandArgument?)
    requires tok.buf == null
    modifies tok
    ensures second == null
  {
    ghost var text: Text := [97, 32, 98];
    PiecesOfWord([], [97], [32, 98], BLANK);
    PiecesOfWord([32], [98], [], BLANK);
    assert [] + [97] + [32, 98] == text && [32] + [98] + [] == [32, 98];
    assert Truncate(text, COMMAND_SIZE - 1) == text;
    var first;
    ghost var list, rest, u;
    first, list, rest := ParseCommand(tok, [97, 32, 98, 0], 16, 1, text, []);
    assert Pieces(rest, BLANK) == [];
    u := rest;
    second, list, rest := ParseCommand(tok, [99, 0], 16, allocations, [99], u);
  }
}
