/** fgets, and how repeated calls take an input stream apart. */
module Lines {
  import opened CTypes

  const EOF: int := -1

  /** The length of the piece fgets takes: to the first newline, the buffer's end or the input's. */
  function PieceLength(input: seq<char>, room: nat): (n: nat)
    ensures n <= |input| && n <= room
  {
    if input == [] || room == 0 then 0
    else if input[0] == '\n' then 1
    else 1 + PieceLength(input[1..], room - 1)
  }

  lemma PieceStep(input: seq<char>, room: nat)
    ensures input == [] || room == 0 ==> PieceLength(input, room) == 0
    ensures input != [] && room > 0 ==>
      PieceLength(input, room) == 1 + if input[0] == '\n' then 0 else PieceLength(input[1..], room - 1)
  {
  }

  lemma StoreNext(s: seq<char>, text: seq<char>, was: seq<char>, i: nat)
    requires i < |text| && i < |was| && s == text[..i] + was[i..]
    ensures s[i := text[i]] == text[..i + 1] + was[i + 1..]
    ensures text[i..][0] == text[i] && text[i..][1..] == text[i + 1..]
  {
  }

  lemma Terminate(s: seq<char>, text: seq<char>, was: seq<char>, i: nat)
    requires i <= |text| && i < |was| && s == text[..i] + was[i..]
    ensures var t := s[i := '\0']; t[..i] == text[..i] && t[i] == '\0' && t[i + 1..] == was[i + 1..]
  {
  }

  class Stream {
    var input: seq<char>       // what is left to read
    var eof: bool

    constructor (text: seq<char>)
      ensures input == text && !eof
    {
      input, eof := text, false;
    }

    /** fread of one byte; a read at the end of the input sets the end-of-file flag. */
    method Fgetc() returns (c: int)
      modifies this
      ensures old(input) == [] ==> c == EOF && input == [] && eof
      ensures old(input) != [] ==> c == old(input)[0] as int && input == old(input)[1..] && eof == old(eof)
    {
      if input == [] {
        eof := true;
        return EOF;
      }
      c := input[0] as int;
      input := input[1..];
    }

    method Fgets(s: array<char>, size: int) returns (ok: bool)
      requires size <= s.Length
      modifies this, s
      ensures size <= 0 || (size > 1 && old(input) == []) ==>
        !ok && input == old(input) && s[..] == old(s[..])
      ensures size == 1 || (size > 1 && old(input) != []) ==>
        var n := PieceLength(old(input), size - 1);
        && ok && input == old(input)[n..]
        && s[..n] == old(input)[..n] && s[n] == '\0' && s[n + 1..] == old(s[n + 1..])
    {
      if size <= 0 {
        return false;
      }
      ghost var whole, was, n := input, s[..], PieceLength(input, size - 1);
      hide PieceLength;
      var i: nat := 0;
      while i < size - 1
        invariant i <= n <= |whole| && i <= size - 1
        invariant input == whole[i..] && n == i + PieceLength(input, size - 1 - i)
        invariant s[..] == whole[..i] + was[i..]
      {
        PieceStep(input, size - 1 - i);
        var c := Fgetc();
        if c == EOF {
          if i == 0 {
            return false;
          }
          break;
        }
        StoreNext(s[..], whole, was, i);
        s[i] := c as char;
        i := i + 1;
        if c == '\n' as int {
          break;
        }
      }
      PieceStep(input, size - 1 - i);
      assert i == n;
      Terminate(s[..], whole, was, i);
      s[i] := '\0';
      return true;
    }

    /** Repeated calls of fgets until NULL, each piece taken up to its NUL. */
    method ReadAll(s: array<char>, size: nat) returns (pieces: seq<seq<char>>)
      requires 2 <= size <= s.Length
      modifies this, s
      ensures pieces == Pieces(old(input), size) && Joined(pieces) == old(input) && input == []
    {
      pieces := [];
      ghost var whole := Pieces(input, size);
      PiecesReassemble(input, size);
      hide PieceLength, Joined, Pieces;
      while true
        invariant whole == pieces + Pieces(input, size)
        decreases |input|
      {
        var rest := input;
        PiecesUnfold(rest, size);
        var ok := Fgets(s, size);
        if !ok {
          return;
        }
        var piece := s[..|rest| - |input|];
        AppendFirst(pieces, piece, Pieces(input, size));
        pieces := pieces + [piece];
      }
    }
  }

  // ----- Whole streams -----

  /** The pieces repeated calls return until NULL. */
  function Pieces(input: seq<char>, size: nat): seq<seq<char>>
    requires size >= 2
  {
    if input == [] then []
    else
      var n := PieceLength(input, size - 1);
      [input[..n]] + Pieces(input[n..], size)
  }

  lemma PiecesUnfold(input: seq<char>, size: nat)
    requires size >= 2
    ensures input == [] ==> Pieces(input, size) == []
    ensures input != [] ==>
      var n := PieceLength(input, size - 1);
      n > 0 && Pieces(input, size) == [input[..n]] + Pieces(input[n..], size)
  {
  }

  function Joined(pieces: seq<seq<char>>): seq<char> {
    if pieces == [] then [] else pieces[0] + Joined(pieces[1..])
  }

  /** The pieces put together are the input. */
  lemma {:induction false} PiecesReassemble(input: seq<char>, size: nat)
    requires size >= 2
    ensures Joined(Pieces(input, size)) == input
    decreases |input|
  {
    hide PieceLength;
    if input != [] {
      var n := PieceLength(input, size - 1);
      PieceShape(input, size - 1);
      PiecesReassemble(input[n..], size);
      assert Pieces(input, size)[1..] == Pieces(input[n..], size);
      assert input == input[..n] + input[n..];
    }
  }

  /** A newline in a piece is its last character, and a piece stops short of the room and of the
      input only at a newline. */
  lemma {:induction false} PieceShape(input: seq<char>, room: nat)
    ensures var n := PieceLength(input, room);
      && (forall i :: 0 <= i < n - 1 ==> input[i] != '\n')
      && (n < room && n < |input| ==> n > 0 && input[n - 1] == '\n')
      && (0 < room && 0 < |input| ==> n > 0)
  {
    if input != [] && room > 0 && input[0] != '\n' {
      PieceShape(input[1..], room - 1);
    }
  }

  /** A piece with room for size characters, at the end of the input or not. */
  ghost predicate WellCut(piece: seq<char>, size: nat, last: bool) {
    && 0 < |piece| < size
    && (forall i :: 0 <= i < |piece| - 1 ==> piece[i] != '\n')
    && (piece[|piece| - 1] == '\n' || |piece| == size - 1 || last)
  }

  /** Every piece fits, has its newline only at the end, and ends at a newline, a full buffer or
      the end of the input. */
  lemma {:induction false} PiecesWellCut(input: seq<char>, size: nat, k: nat)
    requires size >= 2 && k < |Pieces(input, size)|
    ensures WellCut(Pieces(input, size)[k], size, k == |Pieces(input, size)| - 1)
    decreases |input|
  {
    var n := PieceLength(input, size - 1);
    PieceShape(input, size - 1);
    if k > 0 {
      PiecesWellCut(input[n..], size, k - 1);
    } else {
      assert Pieces(input, size)[0] == input[..n];
    }
  }
}
